/** Every accepted text is derivable in the grammar, all its numerals and strings are taken, and its events are those
    of one value. */
module Soundness {
  import opened Bytes
  import opened Json
  import opened Scanner
  import opened Recursive
  import opened Grammar
  import opened Characters
  import opened Doubles
  import opened Completeness
  import Utf8

  /** The flags that the grammar covers: kParseDefaultFlags, with or without kParseStopWhenDoneFlag,
      kParseValidateEncodingFlag and kParseTrailingCommasFlag. */
  predicate StrictFlags(f: Flags) {
    !f.comments && !f.numbersAsStrings && !f.nanAndInf
  }

  lemma {:induction false} SpacesDerive(t: Text, p: nat)
    requires p <= |t|
    ensures SkipSpaces(t, p) <= |t| && IsBlank(t[p..SkipSpaces(t, p)]) && At(t, p, t[p..SkipSpaces(t, p)])
    decreases |t| - p
  {
    if IsSpace(Peek(t, p)) {
      SpacesDerive(t, p + 1);
      assert t[p..SkipSpaces(t, p)] == [t[p]] + t[p + 1..SkipSpaces(t, p)];
    }
  }

  /** The blanks that were skipped. */
  lemma BlanksDerive(f: Flags, t: Text, p: nat, log: seq<Event>) returns (ws: Text)
    requires StrictFlags(f) && p <= |t|
    ensures Blanks(f, t, p, log) == Ok(p + |ws|, log) && IsBlank(ws) && At(t, p, ws)
  {
    SpacesDerive(t, p);
    ws := t[p..SkipSpaces(t, p)];
  }

  // ---- Strings ----

  lemma HexDerives(t: Text, p: nat)
    requires HexAt(t, p)
    ensures p + 4 <= |t| && At(t, p, t[p..p + 4]) && IsHex4(t[p..p + 4]) && CodeUnit(t[p..p + 4]) == Hex4(t, p)
  {
  }

  lemma MarkAt(t: Text, p: nat)
    requires Peek(t, p) == BACKSLASH && Peek(t, p + 1) == LETTER_U
    ensures At(t, p, [BACKSLASH, LETTER_U])
  {
    assert t[p..p + 2] == [BACKSLASH, LETTER_U];
  }

  lemma UnicodeDerives(t: Text, p: nat) returns (c: Char)
    requires Peek(t, p) == BACKSLASH && Peek(t, p + 1) == LETTER_U && ScanUnicode(t, p).Got?
    ensures ValidChar(c) && !IsLead(c) && !c.Literal? && At(t, p, CharText(c))
    ensures ScanUnicode(t, p).pos == p + |CharText(c)| && Utf8.Encode(ScanUnicode(t, p).value) == CharValue(c)
  {
    hide HexAt, Hex4, CodeUnit, Utf8.Encode, IsHex, At;
    HexDerives(t, p + 2);
    var mark, lead := [BACKSLASH, LETTER_U], t[p + 2..p + 6];
    MarkAt(t, p);
    AtConcat(t, p, mark, lead);
    if 0xD800 <= Hex4(t, p + 2) <= 0xDBFF {
      HexDerives(t, p + 8);
      var trail := t[p + 8..p + 12];
      MarkAt(t, p + 6);
      AtConcat(t, p, mark + lead, mark);
      AtConcat(t, p, mark + lead + mark, trail);
      c := Surrogates(lead, trail);
    } else {
      c := Unicode(lead);
    }
  }

  lemma CharDerives(f: Flags, t: Text, p: nat) returns (c: Char)
    requires Peek(t, p) != QUOTE && ScanChar(f, t, p).Got? && (f.validateEncoding ==> Peek(t, p) < 0x80)
    ensures ValidChar(c) && !IsLead(c) && At(t, p, CharText(c)) && (c.Literal? ==> c.b == Peek(t, p))
    ensures ScanChar(f, t, p) == Got(p + |CharText(c)|, CharValue(c))
  {
    hide ScanUnicode, Utf8.Encode, CodeUnit;
    if t[p] == BACKSLASH {
      if Unescape(Peek(t, p + 1)) != NUL {
        c := Escape(t[p + 1]);
        assert t[p..p + 2] == [BACKSLASH, t[p + 1]];
      } else {
        c := UnicodeDerives(t, p);
      }
    } else {
      c := Literal(t[p]);
      assert t[p..p + 1] == [t[p]];
    }
  }

  /** With kParseValidateEncodingFlag: the bytes of a character that was taken. */
  lemma LiteralsDerive(f: Flags, t: Text, p: nat) returns (s: Text)
    requires f.validateEncoding && Peek(t, p) >= 0x80 && ScanChar(f, t, p).Got?
    ensures Unescaped(s) && At(t, p, s) && s != [] && ScanChar(f, t, p) == Got(p + |s|, s)
    ensures forall rest: Text :: Utf8.IsUtf8(s + rest) == Utf8.IsUtf8(rest)
  {
    hide Utf8.Validate, Utf8.Decode, Utf8.IsUtf8;
    Utf8.ValidateAgrees(t, p);
    Utf8.DecodeExact(t, p);
    s := t[p..Utf8.Decode(t, p).next];
    assert s[0] == t[p];
    forall rest: Text ensures Utf8.IsUtf8(s + rest) == Utf8.IsUtf8(rest) {
      CharPrefix(s, rest);
    }
  }

  lemma CharPrefix(s: Text, rest: Text)
    requires Utf8.IsUtf8Char(s)
    ensures Utf8.IsUtf8(s + rest) == Utf8.IsUtf8(rest)
  {
    hide Utf8.Decode, Utf8.IsUtf8Char;
    assert s != [] by { Nonempty(s); }
    Utf8.DecodeExact(s + rest, 0);
    assert (s + rest)[0..|s|] == s && (s + rest)[|s|..] == rest;
  }

  lemma Nonempty(s: Text)
    requires Utf8.IsUtf8Char(s)
    ensures s != []
  {
  }

  lemma {:induction false} CharsDerive(f: Flags, t: Text, p: nat, acc: Text) returns (cs: seq<Char>)
    requires ScanString(f, t, p, acc).Got?
    ensures ValidChars(cs) && CharsTaken(f, cs) && At(t, p, CharsText(cs))
    ensures ScanString(f, t, p, acc) == Got(p + |CharsText(cs)|, CharsValue(cs, acc))
    decreases |t| - p
  {
    hide ScanChar, At, CharText, CharsText, CharValue, CharsValue, ValidChar, ValidChars, CharsTaken, IsLead, Unescaped,
         Literals,
         Utf8.IsUtf8, Peek;
    if Peek(t, p) == QUOTE {
      cs := [];
      NoChars(f, t, p, acc);
    } else {
      if f.validateEncoding && Peek(t, p) >= 0x80 {
        var s := LiteralsDerive(f, t, p);
        var rest := CharsDerive(f, t, p + |s|, acc + s);
        cs := Literals(s) + rest;
        LiteralsAssembled(f, t, p, s, rest, acc);
      } else {
        var c := CharDerives(f, t, p);
        var rest := CharsDerive(f, t, p + |CharText(c)|, acc + CharValue(c));
        cs := [c] + rest;
        CharAssembled(f, t, p, c, rest, acc);
      }
    }
  }

  lemma NoChars(f: Flags, t: Text, p: nat, acc: Text)
    requires Peek(t, p) == QUOTE
    ensures ValidChars([]) && CharsTaken(f, []) && At(t, p, CharsText([])) && |CharsText([])| == 1 &&
            CharsValue([], acc) == acc
  {
    SingleAt(t, p);
    AsciiFirst(QUOTE, []);
    assert [QUOTE] + [] == [QUOTE];
  }

  lemma LiteralsAssembled(f: Flags, t: Text, p: nat, s: Text, rest: seq<Char>, acc: Text)
    requires Unescaped(s) && At(t, p, s) && ValidChars(rest) && CharsTaken(f, rest) && At(t, p + |s|, CharsText(rest))
    requires forall r: Text :: Utf8.IsUtf8(s + r) == Utf8.IsUtf8(r)
    ensures var cs := Literals(s) + rest;
            && ValidChars(cs) && CharsTaken(f, cs) && At(t, p, CharsText(cs))
            && |CharsText(cs)| == |s| + |CharsText(rest)| && CharsValue(cs, acc) == CharsValue(rest, acc + s)
  {
    hide CharsText, CharsValue, ValidChars, LeadsPaired, IsLead, Utf8.IsUtf8, At;
    var cs := Literals(s) + rest;
    LiteralsText(s, rest, acc);
    AtConcat(t, p, s, CharsText(rest));
    assert cs[|s|..] == rest;
    NoLeads(cs, s, |s|);
    PairedRest(cs, |s|);
  }

  lemma CharAssembled(f: Flags, t: Text, p: nat, c: Char, rest: seq<Char>, acc: Text)
    requires ValidChar(c) && !IsLead(c) && At(t, p, CharText(c)) && (f.validateEncoding && c.Literal? ==> c.b < 0x80)
    requires ValidChars(rest) && CharsTaken(f, rest) && At(t, p + |CharText(c)|, CharsText(rest))
    ensures var cs := [c] + rest;
            && ValidChars(cs) && CharsTaken(f, cs) && At(t, p, CharsText(cs))
            && |CharsText(cs)| == |CharText(c)| + |CharsText(rest)| &&
               CharsValue(cs, acc) == CharsValue(rest, acc + CharValue(c))
  {
    hide CharText, CharsText, CharValue, CharsValue, ValidChar, ValidChars, LeadsPaired, IsLead, Utf8.IsUtf8, At;
    var cs := [c] + rest;
    assert cs[1..] == rest;
    FirstValid(c, rest);
    FirstChar(cs, acc);
    AtConcat(t, p, CharText(c), CharsText(rest));
    if f.validateEncoding {
      AsciiChar(c, CharsText(rest));
    }
    PairedRest(cs, 1);
  }

  // ---- Numbers ----

  lemma DigitsDerive(t: Text, p: nat) returns (ds: Text)
    requires IsDigit(Peek(t, p))
    ensures DigitsEnd(t, p) == p + |ds| && AllDigits(ds) && ds != [] && At(t, p, ds) && ds[0] == Peek(t, p) &&
            t[p..p + |ds|] == ds
  {
    ds := t[p..DigitsEnd(t, p)];
  }

  lemma ExponentDerives(f: Flags, t: Text, part: IntegerPart, s: nat, integral: bool, scale: nat) returns (x: Exponent)
    requires part.start < s <= |t| && AllDigits(part.digits)
    requires ScanExponent(f, t, part, s, integral, scale).Got?
    ensures ValidExponent(x) && At(t, s, ExponentText(x))
    ensures x.Exponent? && x.sign != [MINUS] ==> Numeral(x.digits) <= 308 + scale
    ensures var e := s + |ExponentText(x)|;
            ScanExponent(f, t, part, s, integral, scale) ==
                Got(e, NumberEventAt(f, t, part, e, integral && x.NoExponent?))
  {
    hide Numeral, NumberEventAt, DigitsEnd, AllDigits, At, ExponentText;
    if IsExponentMark(Peek(t, s)) {
      var c := Peek(t, s + 1);
      var sign: Text := if c == PLUS || c == MINUS then [c] else [];
      var digits := DigitsDerive(t, s + 1 + |sign|);
      x := Exponent(t[s], sign, digits);
      SingleAt(t, s);
      if sign != [] {
        SingleAt(t, s + 1);
      } else {
        AtNone(t, s + 1);
      }
      ExponentAssembled(t, s, x);
    } else {
      x := NoExponent;
      ExponentAbsent(t, s);
    }
  }

  lemma ExponentAssembled(t: Text, s: nat, x: Exponent)
    requires x.Exponent? && At(t, s, [x.mark]) && At(t, s + 1, x.sign) && At(t, s + 1 + |x.sign|, x.digits)
    ensures At(t, s, ExponentText(x)) && |ExponentText(x)| == 1 + |x.sign| + |x.digits|
  {
    hide At;
    AtConcat(t, s + 1, x.sign, x.digits);
    AtConcat(t, s, [x.mark], x.sign + x.digits);
  }

  lemma ExponentAbsent(t: Text, s: nat)
    requires s <= |t|
    ensures At(t, s, ExponentText(NoExponent)) && |ExponentText(NoExponent)| == 0
  {
  }

  lemma FractionDerives(f: Flags, t: Text, part: IntegerPart, r: nat) returns (fraction: Text, x: Exponent)
    requires part.start < r <= |t| && AllDigits(part.digits) && ScanFraction(f, t, part, r).Got?
    ensures AllDigits(fraction) && ValidExponent(x) && !IntegerTooBig(f.arithmetic, part.minus, part.digits)
    ensures At(t, r, FractionText(fraction)) && At(t, r + |FractionText(fraction)|, ExponentText(x))
    ensures x.Exponent? && x.sign != [MINUS] ==>
            Numeral(x.digits) <= 308 + FractionScale(part.minus, part.digits, fraction)
    ensures var e := r + |FractionText(fraction)| + |ExponentText(x)|;
            ScanFraction(f, t, part, r) == Got(e, NumberEventAt(f, t, part, e, fraction == [] && x.NoExponent?))
  {
    hide Numeral, NumberEventAt, DigitsEnd, At, ScanExponent, ExponentText, IntegerTooBig, ValidExponent;
    if Peek(t, r) == DOT {
      fraction := DigitsDerive(t, r + 1);
      SingleAt(t, r);
      AtConcat(t, r, [DOT], fraction);
      x := ExponentDerives(f, t, part, r + 1 + |fraction|, false, FractionScale(part.minus, part.digits, fraction));
    } else {
      fraction := [];
      AtNone(t, r);
      x := ExponentDerives(f, t, part, r, true, 0);
    }
  }

  /** A scanned number is a numeral of the grammar, read whole. */
  lemma NumericDerives(f: Flags, t: Text, p: nat) returns (n: Numeric)
    requires StrictFlags(f) && p <= |t| && ScanNumber(f, t, p).Got?
    ensures ValidNumeric(n) && NumericTaken(f, n) && At(t, p, NumericText(n))
    ensures ScanNumber(f, t, p) == Got(p + |NumericText(n)|, NumericEvent(n))
  {
    hide Numeral, NumberEventAt, DigitsEnd, At, ScanFraction, ExponentText, FractionText, IntegerTooBig, FractionScale,
         NumericEvent;
    var minus := Peek(t, p) == MINUS;
    var q := if minus then p + 1 else p;
    var integer: Text;
    if Peek(t, q) == ZERO {
      integer := [ZERO];
      SingleAt(t, q);
    } else {
      integer := DigitsDerive(t, q);
    }
    var part := IntegerPart(p, minus, integer, false);
    var r := q + |integer|;
    assert ScanNumber(f, t, p) == ScanFraction(f, t, part, r);
    var fraction, x := FractionDerives(f, t, part, r);
    n := Numeric(minus, integer, fraction, x);
    NumericAssembled(t, p, n, q, r);
    assert NumberEventAt(f, t, part, p + |NumericText(n)|, IsInteger(n)) ==
           NumericEvent(n) by { EventOfNumeric(f, t, p, n); }
  }

  lemma NumericAssembled(t: Text, p: nat, n: Numeric, q: nat, r: nat)
    requires n.minus == (Peek(t, p) == MINUS) && q == (if n.minus then p + 1 else p) && r == q + |n.integer|
    requires p <= |t| && At(t, q, n.integer) && At(t, r, FractionText(n.fraction))
    requires At(t, r + |FractionText(n.fraction)|, ExponentText(n.exponent))
    ensures At(t, p, NumericText(n)) && p + |NumericText(n)| ==
            r + |FractionText(n.fraction)| + |ExponentText(n.exponent)|
  {
    hide At, ExponentText, FractionText;
    AtConcat(t, r, FractionText(n.fraction), ExponentText(n.exponent));
    AtConcat(t, q, n.integer, FractionText(n.fraction) + ExponentText(n.exponent));
    if n.minus {
      SingleAt(t, p);
    } else {
      AtNone(t, p);
    }
    AtConcat(t, p, SignText(n.minus), n.integer + (FractionText(n.fraction) + ExponentText(n.exponent)));
  }

  lemma EventOfNumeric(f: Flags, t: Text, p: nat, n: Numeric)
    requires StrictFlags(f) && ValidNumeric(n) && At(t, p, NumericText(n))
    ensures NumericText(n) != []
    ensures NumberEventAt(f, t, IntegerPart(p, n.minus, n.integer, false), p + |NumericText(n)|, IsInteger(n)) ==
            NumericEvent(n)
  {
    hide Numeral;
  }

  // ---- Values ----

  lemma {:induction false} TreeDerives(f: Flags, t: Text, p: nat, log: seq<Event>) returns (v: Tree)
    requires StrictFlags(f) && p <= |t| && ParseValue(f, t, p, log).Ok?
    ensures ValidTree(v) && CommasAllowed(f, v) && TreeTaken(f, v) && At(t, p, TreeText(v))
    ensures ParseValue(f, t, p, log) == Ok(p + |TreeText(v)|, TreeLog(v, log))
    decreases |t| - p, 1
  {
    hide At, ScanNumber, ScanString, CharsText, CharsValue, NumericText, NumericEvent, NumericTaken, CharsTaken,
         ValidNumeric, ValidChars, Matched, Blanks, ItemsText, PairsText, ParseElements, ParseMembers, ItemsTaken,
             PairsTaken;
    var c := Peek(t, p);
    if c == LBRACE {
      v := ObjectDerives(f, t, p, log);
    } else if c == LBRACKET {
      v := ArrayDerives(f, t, p, log);
    } else if c == NULL_WORD[0] {
      v := NullWord;
    } else if c == TRUE_WORD[0] {
      v := TrueWord;
    } else if c == FALSE_WORD[0] {
      v := FalseWord;
    } else if c == QUOTE {
      var cs := CharsDerive(f, t, p + 1, []);
      v := Str(cs);
      SingleAt(t, p);
      AtConcat(t, p, [QUOTE], CharsText(cs));
    } else {
      var n := NumericDerives(f, t, p);
      v := Num(n);
    }
  }

  lemma {:induction false} ArrayDerives(f: Flags, t: Text, p: nat, log: seq<Event>) returns (v: Tree)
    requires StrictFlags(f) && Peek(t, p) == LBRACKET && ParseArray(f, t, p, log).Ok?
    ensures ValidTree(v) && CommasAllowed(f, v) && TreeTaken(f, v) && At(t, p, TreeText(v))
    ensures ParseArray(f, t, p, log) == Ok(p + |TreeText(v)|, TreeLog(v, log))
    decreases |t| - p, 0
  {
    hide At, ParseElements, Blanks, ItemsText, ItemsLog, ItemsTaken, ValidItems, IsBlank;
    var blank := BlanksDerive(f, t, p + 1, log + [EStartArray]);
    var q := p + 1 + |blank|;
    SingleAt(t, p);
    if Peek(t, q) == RBRACKET {
      v := EmptyArray(blank);
      SingleAt(t, q);
      AtConcat(t, p + 1, blank, [RBRACKET]);
      AtConcat(t, p, [LBRACKET], blank + [RBRACKET]);
    } else {
      var items := ItemsDerive(f, t, q, log + [EStartArray], 0);
      v := Arr(blank, items);
      AtConcat(t, p + 1, blank, ItemsText(items));
      AtConcat(t, p, [LBRACKET], blank + ItemsText(items));
    }
  }

  /** A parse of elements that goes through went through each of its parts. */
  lemma ElementParts(f: Flags, t: Text, p: nat, log: seq<Event>, count: nat)
    requires p <= |t| && ParseElements(f, t, p, log, count).Ok?
    ensures var v := ParseValue(f, t, p, log);
            && v.Ok?
            && var b := Blanks(f, t, v.pos, v.log);
            b.Ok? && ParseElements(f, t, p, log, count) == ParseElementsTail(f, t, b.pos, b.log, count + 1)
  {
    hide ParseValue, Blanks, ParseElementsTail;
  }

  lemma ElementsTailParts(f: Flags, t: Text, p: nat, log: seq<Event>, count: nat)
    requires p <= |t| && ParseElementsTail(f, t, p, log, count).Ok?
    ensures var r := ParseElementsTail(f, t, p, log, count);
            if Peek(t, p) == RBRACKET then r == Ok(p + 1, log + [EEndArray(count)])
            else
              && Peek(t, p) == COMMA
              && var b := Blanks(f, t, p + 1, log);
              && b.Ok?
              && r == if f.trailingCommas && Peek(t, b.pos) == RBRACKET then Ok(b.pos + 1, log + [EEndArray(count)])
                      else ParseElements(f, t, b.pos, log, count)
  {
    hide ParseElements, Blanks;
  }

  lemma {:induction false} ItemsDerive(f: Flags, t: Text, p: nat, log: seq<Event>, count: nat) returns (items: Items)
    requires StrictFlags(f) && p <= |t| && ParseElements(f, t, p, log, count).Ok?
    ensures ValidItems(items) && ItemCommasAllowed(f, items) && ItemsTaken(f, items) && At(t, p, ItemsText(items))
    ensures ParseElements(f, t, p, log, count) == Ok(p + |ItemsText(items)|, ItemsLog(items, log, count))
    decreases |t| - p, 2
  {
    hide At, ParseValue, ParseElements, ParseElementsTail, Blanks, TreeText, TreeLog, TreeTaken, ValidTree, IsBlank,
         CommasAllowed;
    ElementParts(f, t, p, log, count);
    var v := TreeDerives(f, t, p, log);
    var log1 := TreeLog(v, log);
    var q := p + |TreeText(v)|;
    var after := BlanksDerive(f, t, q, log1);
    var r := q + |after|;
    ElementsTailParts(f, t, r, log1, count + 1);
    SingleAt(t, r);
    if Peek(t, r) == RBRACKET {
      items := LastItem(v, after, None);
      Followed(t, p, TreeText(v), after, [RBRACKET]);
    } else {
      var before := BlanksDerive(f, t, r + 1, log1);
      var s := r + 1 + |before|;
      if f.trailingCommas && Peek(t, s) == RBRACKET {
        items := LastItem(v, after, Some(before));
        SingleAt(t, s);
        Followed(t, r, [COMMA], before, [RBRACKET]);
      } else {
        var others := ItemsDerive(f, t, s, log1, count + 1);
        items := MoreItems(v, after, before, others);
        Followed(t, r, [COMMA], before, ItemsText(others));
      }
      var rest := if items.LastItem? then [RBRACKET] else ItemsText(items.rest);
      Followed(t, p, TreeText(v), after, [COMMA] + (before + rest));
    }
  }

  lemma Followed(t: Text, p: nat, a: Text, b: Text, c: Text)
    requires At(t, p, a) && At(t, p + |a|, b) && At(t, p + |a| + |b|, c)
    ensures At(t, p, a + (b + c))
  {
    hide At;
    AtConcat(t, p + |a|, b, c);
    AtConcat(t, p, a, b + c);
  }

  lemma {:induction false} ObjectDerives(f: Flags, t: Text, p: nat, log: seq<Event>) returns (v: Tree)
    requires StrictFlags(f) && Peek(t, p) == LBRACE && ParseObject(f, t, p, log).Ok?
    ensures ValidTree(v) && CommasAllowed(f, v) && TreeTaken(f, v) && At(t, p, TreeText(v))
    ensures ParseObject(f, t, p, log) == Ok(p + |TreeText(v)|, TreeLog(v, log))
    decreases |t| - p, 0
  {
    hide At, ParseMembers, Blanks, PairsText, PairsLog, PairsTaken, ValidPairs, IsBlank;
    var blank := BlanksDerive(f, t, p + 1, log + [EStartObject]);
    var q := p + 1 + |blank|;
    SingleAt(t, p);
    if Peek(t, q) == RBRACE {
      v := EmptyObject(blank);
      SingleAt(t, q);
      AtConcat(t, p + 1, blank, [RBRACE]);
      AtConcat(t, p, [LBRACE], blank + [RBRACE]);
    } else {
      var pairs := PairsDerive(f, t, q, log + [EStartObject], 0);
      v := Obj(blank, pairs);
      AtConcat(t, p + 1, blank, PairsText(pairs));
      AtConcat(t, p, [LBRACE], blank + PairsText(pairs));
    }
  }

  /** A parse of members that goes through went through each of its parts. */
  lemma MemberParts(f: Flags, t: Text, p: nat, log: seq<Event>, count: nat)
    requires p <= |t| && ParseMembers(f, t, p, log, count).Ok?
    ensures Peek(t, p) == QUOTE && ParseString(f, t, p, log, true).Ok?
    ensures var k := ParseString(f, t, p, log, true);
            var a := Blanks(f, t, k.pos, k.log);
            && a.Ok? && Peek(t, a.pos) == COLON
            && ParseMembers(f, t, p, log, count) == ParseMemberValue(f, t, a.pos + 1, a.log, count)
  {
    hide ParseString, Blanks, ParseMemberValue;
  }

  lemma MemberValueParts(f: Flags, t: Text, p: nat, log: seq<Event>, count: nat)
    requires p <= |t| && ParseMemberValue(f, t, p, log, count).Ok?
    ensures var b := Blanks(f, t, p, log);
            && b.Ok?
            && var v := ParseValue(f, t, b.pos, b.log);
            && v.Ok?
            && var c := Blanks(f, t, v.pos, v.log);
            c.Ok? && ParseMemberValue(f, t, p, log, count) == ParseMembersTail(f, t, c.pos, c.log, count + 1)
  {
    hide Blanks, ParseValue, ParseMembersTail;
  }

  lemma {:induction false} PairDerives(f: Flags, t: Text, p: nat, log: seq<Event>, count: nat) returns (m: Pair)
    requires StrictFlags(f) && p <= |t| && ParseMembers(f, t, p, log, count).Ok?
    ensures ValidPair(m) && CommasAllowed(f, m.value) && PairTaken(f, m) && At(t, p, PairText(m))
    ensures var log1 := TreeLog(m.value, log + [EKey(CharsValue(m.name, []))]);
            && p + |PairText(m)| <= |t|
            && ParseMembers(f, t, p, log, count) == ParseMembersTail(f, t, p + |PairText(m)|, log1, count + 1)
    decreases |t| - p, 2
  {
    hide At, ParseValue, Blanks, TreeText, TreeLog, TreeTaken, CharsTaken, ValidTree, IsBlank, ScanString, CharsText,
         CharsValue,
         ParseMembers, ParseMemberValue, ParseMembersTail, ValidChars;
    MemberParts(f, t, p, log, count);
    var name := CharsDerive(f, t, p + 1, []);
    var log0 := log + [EKey(CharsValue(name, []))];
    var q := p + 1 + |CharsText(name)|;
    var colonBefore := BlanksDerive(f, t, q, log0);
    var r := q + |colonBefore|;
    MemberValueParts(f, t, r + 1, log0, count);
    var colonAfter := BlanksDerive(f, t, r + 1, log0);
    var s := r + 1 + |colonAfter|;
    var v := TreeDerives(f, t, s, log0);
    var u := s + |TreeText(v)|;
    var after := BlanksDerive(f, t, u, TreeLog(v, log0));
    m := Pair(name, colonBefore, colonAfter, v, after);
    SingleAt(t, p);
    SingleAt(t, r);
    PairAssembled(t, p, m);
  }

  lemma PairAssembled(t: Text, p: nat, m: Pair)
    requires At(t, p, [QUOTE]) && At(t, p + 1, CharsText(m.name))
    requires var q := p + 1 + |CharsText(m.name)|;
             var r := q + |m.colonBefore|;
             var s := r + 1 + |m.colonAfter|;
             && At(t, q, m.colonBefore) && At(t, r, [COLON]) && At(t, r + 1, m.colonAfter)
             && At(t, s, TreeText(m.value)) && At(t, s + |TreeText(m.value)|, m.after)
    ensures At(t, p, PairText(m)) && p + |PairText(m)| <= |t|
  {
    hide TreeText, CharsText, At;
    var name, value := CharsText(m.name), TreeText(m.value);
    var q := p + 1 + |name|;
    var r := q + |m.colonBefore|;
    var s := r + 1 + |m.colonAfter|;
    AtConcat(t, s, value, m.after);
    AtConcat(t, r + 1, m.colonAfter, value + m.after);
    AtConcat(t, r, [COLON], m.colonAfter + (value + m.after));
    AtConcat(t, q, m.colonBefore, [COLON] + (m.colonAfter + (value + m.after)));
    AtConcat(t, p + 1, name, m.colonBefore + ([COLON] + (m.colonAfter + (value + m.after))));
    AtConcat(t, p, [QUOTE], name + (m.colonBefore + ([COLON] + (m.colonAfter + (value + m.after)))));
    AtInside(t, p, PairText(m));
  }

  lemma AtInside(t: Text, p: nat, s: Text)
    requires At(t, p, s)
    ensures p + |s| <= |t|
  {
  }

  lemma MembersTailParts(f: Flags, t: Text, p: nat, log: seq<Event>, count: nat)
    requires p <= |t| && ParseMembersTail(f, t, p, log, count).Ok?
    ensures var r := ParseMembersTail(f, t, p, log, count);
            if Peek(t, p) == RBRACE then r == Ok(p + 1, log + [EEndObject(count)])
            else
              && Peek(t, p) == COMMA
              && var b := Blanks(f, t, p + 1, log);
              && b.Ok?
              && r == if f.trailingCommas && Peek(t, b.pos) == RBRACE then Ok(b.pos + 1, log + [EEndObject(count)])
                      else ParseMembers(f, t, b.pos, log, count)
  {
    hide ParseMembers, Blanks;
  }

  lemma {:induction false} PairsDerive(f: Flags, t: Text, p: nat, log: seq<Event>, count: nat) returns (pairs: Pairs)
    requires StrictFlags(f) && p <= |t| && ParseMembers(f, t, p, log, count).Ok?
    ensures ValidPairs(pairs) && PairCommasAllowed(f, pairs) && PairsTaken(f, pairs) && At(t, p, PairsText(pairs))
    ensures ParseMembers(f, t, p, log, count) == Ok(p + |PairsText(pairs)|, PairsLog(pairs, log, count))
    decreases |t| - p, 3
  {
    hide At, ParseMembers, ParseMembersTail, Blanks, PairText, TreeLog, TreeTaken, CharsTaken, ValidTree, IsBlank,
         CharsValue, ValidChars, CommasAllowed;
    var m := PairDerives(f, t, p, log, count);
    var log1 := TreeLog(m.value, log + [EKey(CharsValue(m.name, []))]);
    var r := p + |PairText(m)|;
    MembersTailParts(f, t, r, log1, count + 1);
    SingleAt(t, r);
    if Peek(t, r) == RBRACE {
      pairs := LastPair(m, None);
      AtConcat(t, p, PairText(m), [RBRACE]);
    } else {
      var before := BlanksDerive(f, t, r + 1, log1);
      var s := r + 1 + |before|;
      if f.trailingCommas && Peek(t, s) == RBRACE {
        pairs := LastPair(m, Some(before));
        SingleAt(t, s);
        Followed(t, r, [COMMA], before, [RBRACE]);
      } else {
        var others := PairsDerive(f, t, s, log1, count + 1);
        pairs := MorePairs(m, before, others);
        Followed(t, r, [COMMA], before, PairsText(others));
      }
      var rest := if pairs.LastPair? then [RBRACE] else PairsText(pairs.rest);
      AtConcat(t, p, PairText(m), [COMMA] + (before + rest));
    }
  }

  /** An accepted text is, from where the stream stood up to where the reader stops, a JSON text of the grammar with
      exactly its events. */
  lemma DocumentDerives(f: Flags, t: Text, p: nat, log: seq<Event>) returns (d: Document)
    requires StrictFlags(f) && p <= |t| && ParseFrom(f, t, p, log).Ok?
    ensures ValidDocument(d) && CommasAllowed(f, d.root) && TreeTaken(f, d.root) && At(t, p, DocumentText(d))
    ensures ParseFrom(f, t, p, log) == Ok(p + |DocumentText(d)|, TreeLog(d.root, log))
    ensures f.stopWhenDone || Peek(t, p + |DocumentText(d)|) == NUL
  {
    hide At, ParseValue, Blanks, TreeText, TreeLog, TreeTaken, ValidTree, IsBlank;
    var before := BlanksDerive(f, t, p, log);
    var q := p + |before|;
    var root := TreeDerives(f, t, q, log);
    var r := q + |TreeText(root)|;
    var after: Text := [];
    if f.stopWhenDone {
      AtNone(t, r);
    } else {
      after := BlanksDerive(f, t, r, TreeLog(root, log));
    }
    d := Document(before, root, after);
    AtConcat(t, q, TreeText(root), after);
    AtConcat(t, p, before, TreeText(root) + after);
    assert IsBlank([]) by { NoBlank(); }
  }

  lemma NoBlank()
    ensures IsBlank([])
  {
  }

  /** Without a flag that adds blanks or numbers or stops early, the reader accepts exactly the texts of the grammar,
      trailing commas allowed or not, all of whose numerals and strings are taken. */
  lemma AcceptsExactlyJson(f: Flags, t: Text)
    requires StrictFlags(f) && !f.stopWhenDone && NUL !in t
    ensures Parse(f, t).Ok? <==>
            exists d: Document ::
              ValidDocument(d) && CommasAllowed(f, d.root) && DocumentText(d) == t && TreeTaken(f, d.root)
  {
    hide ParseFrom, ValidTree, TreeTaken, DocumentText, CommasAllowed;
    if Parse(f, t).Ok? {
      var d := DocumentDerives(f, t, 0, []);
      WholeText(t, DocumentText(d));
    }
    if d: Document :|
      ValidDocument(d) && CommasAllowed(f, d.root) && DocumentText(d) == t && TreeTaken(f, d.root)
    {
      DocumentAccepted(f, d);
    }
  }

  lemma WholeText(t: Text, s: Text)
    requires NUL !in t && At(t, 0, s) && Peek(t, |s|) == NUL
    ensures s == t
  {
    assert forall k :: 0 <= k < |t| ==> t[k] in t;
  }
}
