/** What Writer and PrettyWriter print: the grammar tree of a value in a given layout. */
module Printing {
  import opened Bytes
  import opened Json
  import opened Scanner
  import opened Grammar
  import opened Characters
  import Recursive
  import Completeness
  import Dom
  import Utf8

  // ---- Strings ----

  /** The escape table of WriteString: NUL for none, LETTER_U for a \u escape, else the letter behind the backslash. */
  function EscapeLetter(c: Byte): Byte {
    if c == 0x08 then 0x62
    else if c == TAB then 0x74
    else if c == LF then 0x6E
    else if c == 0x0C then 0x66
    else if c == CR then 0x72
    else if c < 0x20 then LETTER_U
    else if c == QUOTE || c == BACKSLASH then c
    else NUL
  }

  /** The four hexadecimal digits of a code unit. */
  function Hex4Digits(n: nat): Text
    requires n <= 0xFFFF
  {
    [HexDigit(n / 4096), HexDigit(n / 256 % 16), HexDigit(n / 16 % 16), HexDigit(n % 16)]
  }

  /** How one byte is written to a target that supports Unicode. */
  function EscapeByte(c: Byte): (r: Char)
    ensures ValidChar(r) && CharValue(r) == [c]
    ensures |CharText(r)| <= 6
  {
    var e := EscapeLetter(c);
    if e == LETTER_U then
      HexDigits(c);
      Unicode(Hex4Digits(c))
    else if e != NUL then Escape(e)
    else Literal(c)
  }

  lemma HexDigits(n: nat)
    requires n <= 0xFFFF
    ensures IsHex4(Hex4Digits(n)) && CodeUnit(Hex4Digits(n)) == n
  {
    assert forall d: nat :: d < 16 ==> IsHex(HexDigit(d)) && HexValue(HexDigit(d)) == d;
    assert n / 256 == n / 4096 * 16 + n / 256 % 16;
    assert n / 16 == n / 256 * 16 + n / 16 % 16;
  }

  function EscapeBytes(s: Text): (cs: seq<Char>)
    ensures ValidChars(cs)
  {
    if s == [] then [] else [EscapeByte(s[0])] + EscapeBytes(s[1..])
  }

  /** Reading the escaped string gives the string back, whatever bytes it holds. */
  lemma {:induction false} EscapeIsRead(s: Text, acc: Text)
    ensures CharsValue(EscapeBytes(s), acc) == acc + s
    decreases |s|
  {
    hide EscapeByte;
    if s == [] {
      assert acc + s == acc;
    } else {
      var cs := EscapeBytes(s);
      assert cs[1..] == EscapeBytes(s[1..]);
      EscapeIsRead(s[1..], acc + [s[0]]);
      assert acc + [s[0]] + s[1..] == acc + s;
    }
  }

  /** WriteString stays within the 2 + 6n units it reserves. */
  lemma {:induction false} EscapeBound(s: Text)
    ensures |CharsText(EscapeBytes(s))| + 1 <= 2 + 6 * |s|
    decreases |s|
  {
    hide EscapeByte;
    if s != [] {
      assert EscapeBytes(s)[1..] == EscapeBytes(s[1..]);
      EscapeBound(s[1..]);
    }
  }

  // ---- Strings to a target without Unicode ----

  lemma BytesPaired(c: Byte)
    ensures !IsLead(EscapeByte(c)) && !IsTrail(EscapeByte(c))
  {
    if EscapeByte(c).Unicode? {
      HexDigits(c);
    }
  }

  /** How the code point at the head of `s` is written to an ASCII target. */
  function EscapePoint(c: Utf8.CodePoint): (r: Char)
    requires Utf8.IsScalar(c)
    ensures ValidChar(r) && !IsLead(r) && CharValue(r) == Utf8.Encode(c)
    ensures |CharText(r)| <= 12
  {
    BytesPaired(if c < 0x80 then c else 0);
    if c < 0x80 then EscapeByte(c) else if c <= 0xFFFF then EscapeUnit(c) else EscapePair(c)
  }

  function EscapeUnit(c: Utf8.CodePoint): (r: Char)
    requires c <= 0xFFFF && Utf8.IsScalar(c)
    ensures ValidChar(r) && !IsLead(r) && CharValue(r) == Utf8.Encode(c) && |CharText(r)| == 6
  {
    HexDigits(c);
    Unicode(Hex4Digits(c))
  }

  /** A surrogate pair, RFC 8259 section 7. */
  function EscapePair(c: Utf8.CodePoint): (r: Char)
    requires c > 0xFFFF
    ensures ValidChar(r) && CharValue(r) == Utf8.Encode(c) && |CharText(r)| == 12
  {
    var s := c - 0x10000;
    var lead, trail := s / 0x400 + 0xD800, s % 0x400 + 0xDC00;
    SurrogateSplit(s);
    HexDigits(lead);
    HexDigits(trail);
    PairValue(Hex4Digits(lead), Hex4Digits(trail));
    Surrogates(Hex4Digits(lead), Hex4Digits(trail))
  }

  lemma PairValue(lead: Text, trail: Text)
    requires IsHex4(lead) && 0xD800 <= CodeUnit(lead) <= 0xDBFF && IsHex4(trail) && 0xDC00 <= CodeUnit(trail) <= 0xDFFF
    ensures var r := Surrogates(lead, trail);
            && ValidChar(r) && |CharText(r)| == 12
            && CharValue(r) == Utf8.Encode((CodeUnit(lead) - 0xD800) * 0x400 + (CodeUnit(trail) - 0xDC00) + 0x10000)
  {
    hide CodeUnit, Utf8.Encode;
  }

  lemma SurrogateSplit(s: nat)
    requires s < 0x100000
    ensures s / 0x400 < 0x400 && s / 0x400 * 0x400 + s % 0x400 == s
  {
  }

  function EscapePoints(s: Text): (cs: seq<Char>)
    requires Utf8.IsUtf8(s)
    ensures ValidChars(cs)
    decreases |s|
  {
    if s == [] then []
    else
      Utf8.DecodeThenEncode(s, 0);
      var d := Utf8.Decode(s, 0);
      var c, rest := EscapePoint(d.codepoint), EscapePoints(s[d.next..]);
      FirstValid(c, rest);
      [c] + rest
  }

  lemma FirstPointIsRead(s: Text, acc: Text)
    requires s != [] && Utf8.IsUtf8(s)
    ensures var n := Utf8.Decode(s, 0).next;
            && 0 < n <= |s| && Utf8.IsUtf8(s[n..])
            && CharsValue(EscapePoints(s), acc) == CharsValue(EscapePoints(s[n..]), acc + s[..n])
  {
    hide EscapePoint, CharValue, Utf8.Decode, Utf8.Encode, Utf8.IsUtf8Char;
    var d := Utf8.Decode(s, 0);
    Utf8.DecodeExact(s, 0);
    Utf8.DecodeThenEncode(s, 0);
    assert s[0..d.next] == s[..d.next];
    assert EscapePoints(s)[1..] == EscapePoints(s[d.next..]);
  }

  lemma Rejoined(acc: Text, s: Text, n: nat)
    requires n <= |s|
    ensures acc + s[..n] + s[n..] == acc + s
  {
  }

  /** A valid UTF-8 string survives being written with surrogate-pair escapes and read back. */
  lemma {:induction false} AsciiEscapeIsRead(s: Text, acc: Text)
    requires Utf8.IsUtf8(s)
    ensures CharsValue(EscapePoints(s), acc) == acc + s
    decreases |s|
  {
    if s == [] {
      assert acc + s == acc;
    } else {
      hide Utf8.Decode, Utf8.IsUtf8, EscapePoints, CharsValue;
      var n := Utf8.Decode(s, 0).next;
      FirstPointIsRead(s, acc);
      AsciiEscapeIsRead(s[n..], acc + s[..n]);
      Rejoined(acc, s, n);
    }
  }

  /** WriteString stays within the 2 + 12n units it reserves. */
  lemma {:induction false} AsciiEscapeBound(s: Text)
    requires Utf8.IsUtf8(s)
    ensures |CharsText(EscapePoints(s))| + 1 <= 2 + 12 * |s|
    decreases |s|
  {
    hide EscapePoint, Utf8.Decode;
    if s != [] {
      var d := Utf8.Decode(s, 0);
      Utf8.DecodeThenEncode(s, 0);
      assert EscapePoints(s)[1..] == EscapePoints(s[d.next..]);
      AsciiEscapeBound(s[d.next..]);
      assert |s[d.next..]| <= |s| - 1 by { Utf8.DecodeExact(s, 0); }
    }
  }

  // ---- Layout ----

  /** Writer, or PrettyWriter with its indentation and kFormatSingleLineArray option; to a target with or without
      Unicode. */
  datatype Style =
    | Compact(ascii: bool)
    | Pretty(ascii: bool, indentChar: Byte, indentCharCount: nat, singleLineArray: bool)

  /** SetIndent asserts that the indent character is blank. */
  predicate ValidStyle(style: Style) {
    style.Pretty? ==> IsSpace(style.indentChar)
  }

  /** A line break and the indentation of `level` open containers. */
  function NewLine(style: Style, level: nat): (s: Text)
    requires style.Pretty?
    ensures ValidStyle(style) ==> IsBlank(s)
  {
    [LF] + Repeat(style.indentChar, level * style.indentCharCount)
  }

  /** The blanks before the first element or member, inside `level` containers. */
  function OpenBlank(style: Style, level: nat, inArray: bool): (s: Text)
    ensures ValidStyle(style) ==> IsBlank(s)
  {
    if style.Compact? || (inArray && style.singleLineArray) then [] else NewLine(style, level)
  }

  /** The blanks behind a comma. */
  function CommaBlank(style: Style, level: nat, inArray: bool): (s: Text)
    ensures ValidStyle(style) ==> IsBlank(s)
  {
    if style.Compact? then [] else if inArray && style.singleLineArray then [SPACE] else NewLine(style, level)
  }

  /** The blanks before the closing bracket, which stands inside `level` containers. */
  function CloseBlank(style: Style, level: nat, inArray: bool): (s: Text)
    ensures ValidStyle(style) ==> IsBlank(s)
  {
    OpenBlank(style, level, inArray)
  }

  function ColonBlank(style: Style): (s: Text)
    ensures IsBlank(s)
  {
    if style.Compact? then [] else [SPACE]
  }

  /** WriteString fails on a string that is not UTF-8 if it has to decode it. */
  predicate WritableString(style: Style, s: Text) {
    style.ascii ==> Utf8.IsUtf8(s)
  }

  /** How a string is written. */
  function Escaped(style: Style, s: Text): (cs: seq<Char>)
    requires WritableString(style, s)
    ensures ValidChars(cs)
  {
    if style.ascii then EscapePoints(s) else EscapeBytes(s)
  }

  lemma EscapedIsRead(style: Style, s: Text)
    requires WritableString(style, s)
    ensures CharsValue(Escaped(style, s), []) == s
  {
    assert [] + s == s;
    if style.ascii {
      AsciiEscapeIsRead(s, []);
    } else {
      EscapeIsRead(s, []);
    }
  }

  /** No double and no string that cannot be written. */
  predicate Writable(style: Style, v: JSON)
    decreases v, 1
  {
    match v
    case Real(_) => false
    case String(s) => WritableString(style, s)
    case Array(vs) => AllWritable(style, vs)
    case Object(ms) => MembersWritable(style, ms)
    case _ => true
  }

  predicate AllWritable(style: Style, vs: seq<JSON>)
    decreases vs, 0
  {
    vs == [] || (Writable(style, vs[0]) && AllWritable(style, vs[1..]))
  }

  predicate MembersWritable(style: Style, ms: seq<Member>)
    decreases ms, 0
  {
    ms == [] || (WritableString(style, ms[0].name) && Writable(style, ms[0].value) && MembersWritable(style, ms[1..]))
  }

  /** To a Unicode target everything but doubles can be written. */
  lemma {:induction false} UnicodeWritable(style: Style, v: JSON)
    requires !style.ascii && NoReals(v)
    ensures Writable(style, v)
    decreases v, 1
  {
    match v
    case Array(vs) => UnicodeAllWritable(style, vs);
    case Object(ms) => UnicodeMembersWritable(style, ms);
    case _ =>
  }

  lemma {:induction false} UnicodeAllWritable(style: Style, vs: seq<JSON>)
    requires !style.ascii && NoRealElements(vs)
    ensures AllWritable(style, vs)
    decreases vs, 0
  {
    if vs != [] {
      UnicodeWritable(style, vs[0]);
      UnicodeAllWritable(style, vs[1..]);
    }
  }

  lemma {:induction false} UnicodeMembersWritable(style: Style, ms: seq<Member>)
    requires !style.ascii && NoRealMembers(ms)
    ensures MembersWritable(style, ms)
    decreases ms, 0
  {
    if ms != [] {
      UnicodeWritable(style, ms[0].value);
      UnicodeMembersWritable(style, ms[1..]);
    }
  }

  function IntegerTree(n: Int64): Numeric {
    Numeric(n < 0, Decimal(Magnitude(n)), [], NoExponent)
  }

  /** The tree of a value printed inside `level` open containers. */
  function Layout(style: Style, level: nat, v: JSON): Tree
    requires Writable(style, v)
    decreases v, 1
  {
    match v
    case Null => NullWord
    case Bool(b) => if b then TrueWord else FalseWord
    case Number(n) => Num(IntegerTree(n))
    case String(s) => Str(Escaped(style, s))
    case Array(vs) => if vs == [] then EmptyArray([])
      else Arr(OpenBlank(style, level + 1, true), LayoutItems(style, level + 1, vs))
    case Object(ms) => if ms == [] then EmptyObject([])
      else Obj(OpenBlank(style, level + 1, false), LayoutPairs(style, level + 1, ms))
  }

  function LayoutItems(style: Style, level: nat, vs: seq<JSON>): Items
    requires AllWritable(style, vs) && vs != [] && level > 0
    decreases vs, 0
  {
    var v := Layout(style, level, vs[0]);
    if |vs| == 1 then LastItem(v, CloseBlank(style, level - 1, true), None)
    else MoreItems(v, [], CommaBlank(style, level, true), LayoutItems(style, level, vs[1..]))
  }

  function LayoutPairs(style: Style, level: nat, ms: seq<Member>): Pairs
    requires MembersWritable(style, ms) && ms != [] && level > 0
    decreases ms, 0
  {
    var v := Layout(style, level, ms[0].value);
    var name := Escaped(style, ms[0].name);
    if |ms| == 1 then LastPair(Pair(name, [], ColonBlank(style), v, CloseBlank(style, level - 1, false)), None)
    else MorePairs(Pair(name, [], ColonBlank(style), v, []), CommaBlank(style, level, false),
         LayoutPairs(style, level, ms[1..]))
  }

  lemma IntegerTreeMeaning(n: Int64)
    ensures ValidNumeric(IntegerTree(n)) && NumericValue(IntegerTree(n)) == Number(n)
  {
    hide Numeral, Decimal;
    DecimalCanonical(Magnitude(n));
  }

  /** The printed tree is well formed and denotes the value. */
  lemma {:induction false} LayoutMeaning(style: Style, level: nat, v: JSON)
    requires Writable(style, v) && ValidStyle(style)
    ensures ValidTree(Layout(style, level, v)) && TreeValue(Layout(style, level, v)) == v
    decreases v, 1
  {
    hide IntegerTree, Escaped, NewLine, NumericValue, ValidNumeric, CharsValue;
    match v
    case Number(n) => IntegerTreeMeaning(n);
    case String(s) => EscapedIsRead(style, s);
    case Array(vs) =>
      if vs != [] {
        LayoutItemsMeaning(style, level + 1, vs);
      }
    case Object(ms) =>
      if ms != [] {
        LayoutPairsMeaning(style, level + 1, ms);
      }
    case _ =>
  }

  lemma {:induction false} LayoutItemsMeaning(style: Style, level: nat, vs: seq<JSON>)
    requires AllWritable(style, vs) && vs != [] && level > 0 && ValidStyle(style)
    ensures ValidItems(LayoutItems(style, level, vs)) && ItemValues(LayoutItems(style, level, vs)) == vs
    decreases vs, 0
  {
    hide Layout, TreeValue, ValidTree;
    LayoutMeaning(style, level, vs[0]);
    if |vs| > 1 {
      LayoutItemsMeaning(style, level, vs[1..]);
    }
    assert vs == [vs[0]] + vs[1..];
  }

  lemma {:induction false} LayoutPairsMeaning(style: Style, level: nat, ms: seq<Member>)
    requires MembersWritable(style, ms) && ms != [] && level > 0 && ValidStyle(style)
    ensures ValidPairs(LayoutPairs(style, level, ms)) && PairValues(LayoutPairs(style, level, ms)) == ms
    decreases ms, 0
  {
    hide Layout, TreeValue, ValidTree, Escaped, CharsValue;
    LayoutMeaning(style, level, ms[0].value);
    EscapedIsRead(style, ms[0].name);
    if |ms| > 1 {
      LayoutPairsMeaning(style, level, ms[1..]);
    }
    assert ms == [Member(ms[0].name, ms[0].value)] + ms[1..];
  }

  // ---- The reader takes what is printed ----

  lemma IntegerTaken(f: Flags, n: Int64)
    ensures ValidNumeric(IntegerTree(n)) && NumericTaken(f, IntegerTree(n))
  {
    IntegerTreeMeaning(n);
    hide Numeral, Decimal;
    DecimalCanonical(Magnitude(n));
  }

  lemma {:induction false} EscapeBytesPaired(s: Text)
    ensures LeadsPaired(EscapeBytes(s))
    decreases |s|
  {
    hide EscapeByte, IsLead;
    if s != [] {
      BytesPaired(s[0]);
      EscapeBytesPaired(s[1..]);
    }
  }

  lemma PointAscii(c: Utf8.CodePoint)
    requires Utf8.IsScalar(c)
    ensures IsAscii(CharText(EscapePoint(c)))
  {
    hide EscapeByte;
    if c < 0x80 {
      AsciiEscaped(c);
    } else {
      EscapeIsAscii(EscapePoint(c));
    }
  }

  lemma AsciiEscaped(c: Byte)
    requires c < 0x80
    ensures IsAscii(CharText(EscapeByte(c)))
  {
    if !EscapeByte(c).Literal? {
      EscapeIsAscii(EscapeByte(c));
    }
  }

  lemma {:induction false} EscapePointsPaired(s: Text)
    requires Utf8.IsUtf8(s)
    ensures LeadsPaired(EscapePoints(s)) && Utf8.IsUtf8(CharsText(EscapePoints(s)))
    decreases |s|
  {
    if s != [] {
      hide EscapePoint, IsLead, Utf8.Decode, CharText, IsAscii;
      var d := Utf8.Decode(s, 0);
      Utf8.DecodeExact(s, 0);
      Utf8.DecodeThenEncode(s, 0);
      var rest := EscapePoints(s[d.next..]);
      EscapePointsPaired(s[d.next..]);
      PointAscii(d.codepoint);
      assert EscapePoints(s)[1..] == rest;
      AsciiPrefix(CharText(EscapePoint(d.codepoint)), CharsText(rest));
    } else {
      AsciiFirst(QUOTE, []);
      assert [QUOTE] + [] == [QUOTE];
    }
  }

  /** Bytes written as they are make UTF-8 text exactly if the string is UTF-8. */
  lemma {:induction false} EscapeBytesUtf8(s: Text)
    ensures Utf8.IsUtf8(CharsText(EscapeBytes(s))) <==> Utf8.IsUtf8(s)
    decreases |s|
  {
    hide Utf8.Decode, EscapeByte, CharText;
    if s == [] {
      AsciiFirst(QUOTE, []);
      assert [QUOTE] + [] == [QUOTE];
    } else if !Utf8.Decode(s, 0).ok {
      EscapeBytesBroken(s);
    } else {
      HighBytes(s);
      var n := Utf8.Decode(s, 0).next;
      EscapeBytesUtf8(s[n..]);
      if n == 1 {
        AsciiEscaped(s[0]);
        assert EscapeBytes(s)[1..] == EscapeBytes(s[1..]);
        AsciiPrefix(CharText(EscapeByte(s[0])), CharsText(EscapeBytes(s[1..])));
      } else {
        HighEscaped(s, n);
        LiteralsText(s[..n], EscapeBytes(s[n..]), []);
        CharInFront(s, n, CharsText(EscapeBytes(s[n..])));
      }
    }
  }

  lemma {:induction false} EscapedAt(s: Text, i: nat)
    requires i < |s|
    ensures |EscapeBytes(s)| == |s| && EscapeBytes(s)[i] == EscapeByte(s[i])
    decreases |s|
  {
    hide EscapeByte;
    if |s| > 1 {
      EscapedAt(s[1..], if i > 0 then i - 1 else 0);
    }
  }

  lemma LiteralEscaped(c: Byte)
    ensures EscapeByte(c).Literal? ==> EscapeByte(c).b == c
  {
  }

  /** No character begins the text if none begins the string. */
  lemma EscapeBytesBroken(s: Text)
    requires s != [] && !Utf8.Decode(s, 0).ok
    ensures !Utf8.IsUtf8(CharsText(EscapeBytes(s)))
  {
    hide Utf8.Decode, EscapeByte, EscapeBytes, CharText, CharsText, Utf8.IsUtf8Char;
    var raw := CharsText(EscapeBytes(s));
    assert raw[0] == s[0] && s[0] >= 0x80 by {
      NotAscii(s);
      FirstEscaped(s);
    }
    if Utf8.Decode(raw, 0).ok {
      HighBytes(raw);
      var n := Utf8.Decode(raw, 0).next;
      HighBytesLiteral(EscapeBytes(s), n);
      EscapedAt(s, 0);
      forall i | 0 <= i < n ensures raw[i] == s[i] {
        EscapedAt(s, i);
        LiteralEscaped(s[i]);
        assert EscapeBytes(s)[i] == Literals(raw[..n])[i];
      }
      assert raw[0..n] == s[0..n];
      Utf8.DecodeExact(raw, 0);
      Utf8.DecodeExact(s, 0);
    }
  }

  lemma NotAscii(s: Text)
    requires s != [] && !Utf8.Decode(s, 0).ok
    ensures s[0] >= 0x80
  {
  }

  lemma FirstEscaped(s: Text)
    requires s != [] && s[0] >= 0x80
    ensures CharsText(EscapeBytes(s))[0] == s[0]
  {
    assert EscapeByte(s[0]) == Literal(s[0]);
  }

  lemma CharInFront(s: Text, n: nat, rest: Text)
    requires s != [] && n == Utf8.Decode(s, 0).next && Utf8.Decode(s, 0).ok && n <= |s|
    ensures Utf8.IsUtf8(s[..n] + rest) == Utf8.IsUtf8(rest)
  {
    hide Utf8.Decode, Utf8.IsUtf8Char;
    Utf8.DecodeExact(s, 0);
    var c := s[..n];
    assert c == s[0..n] && (c + rest)[0..n] == c && (c + rest)[n..] == rest;
    Utf8.DecodeExact(c + rest, 0);
  }

  lemma {:induction false} HighEscaped(s: Text, n: nat)
    requires n <= |s| && forall i :: 0 <= i < n ==> s[i] >= 0x80
    ensures Unescaped(s[..n]) && EscapeBytes(s) == Literals(s[..n]) + EscapeBytes(s[n..])
    decreases n
  {
    if n > 0 {
      HighEscaped(s[1..], n - 1);
      assert s[1..][n - 1..] == s[n..] && s[..n][1..] == s[1..][..n - 1];
      LiteralsFirst(s[..n], EscapeBytes(s[n..]));
      assert EscapeByte(s[0]) == Literal(s[0]);
    }
  }

  /** With kParseValidateEncodingFlag a string has to be UTF-8 to be read back. */
  predicate Readable(f: Flags, s: Text) {
    f.validateEncoding ==> Utf8.IsUtf8(s)
  }

  lemma EscapedTaken(style: Style, f: Flags, s: Text)
    requires WritableString(style, s)
    ensures CharsTaken(f, Escaped(style, s)) <==> Readable(f, s)
  {
    hide Utf8.IsUtf8, EscapePoints, EscapeBytes, CharsText;
    if style.ascii {
      EscapePointsPaired(s);
    } else {
      EscapeBytesPaired(s);
      if f.validateEncoding {
        EscapeBytesUtf8(s);
      }
    }
  }

  /** All strings of the value are UTF-8, if that is asked for: an ASCII target could write it. */
  predicate AllReadable(f: Flags, v: JSON) {
    f.validateEncoding ==> Writable(Compact(true), v)
  }

  lemma {:induction false} LayoutTaken(style: Style, f: Flags, level: nat, v: JSON)
    requires Writable(style, v) && ValidStyle(style)
    ensures ValidTree(Layout(style, level, v)) && CommasAllowed(f, Layout(style, level, v))
    ensures TreeTaken(f, Layout(style, level, v)) <==> AllReadable(f, v)
    decreases v, 1
  {
    hide IntegerTree, Escaped, NewLine, NumericTaken, CharsTaken, ValidNumeric, TreeValue, Utf8.IsUtf8;
    LayoutMeaning(style, level, v);
    match v
    case Number(n) => IntegerTaken(f, n);
    case String(s) => EscapedTaken(style, f, s);
    case Array(vs) =>
      if vs != [] {
        LayoutItemsTaken(style, f, level + 1, vs);
      }
    case Object(ms) =>
      if ms != [] {
        LayoutPairsTaken(style, f, level + 1, ms);
      }
    case _ =>
  }

  lemma {:induction false} LayoutItemsTaken(style: Style, f: Flags, level: nat, vs: seq<JSON>)
    requires AllWritable(style, vs) && vs != [] && level > 0 && ValidStyle(style)
    ensures ValidItems(LayoutItems(style, level, vs)) && ItemCommasAllowed(f, LayoutItems(style, level, vs))
    ensures ItemsTaken(f, LayoutItems(style, level, vs)) <==> (f.validateEncoding ==> AllWritable(Compact(true), vs))
    decreases vs, 0
  {
    hide Layout, TreeTaken, ValidTree, CommasAllowed, ItemValues;
    LayoutItemsMeaning(style, level, vs);
    LayoutTaken(style, f, level, vs[0]);
    if |vs| > 1 {
      LayoutItemsTaken(style, f, level, vs[1..]);
    }
  }

  lemma {:induction false} LayoutPairsTaken(style: Style, f: Flags, level: nat, ms: seq<Member>)
    requires MembersWritable(style, ms) && ms != [] && level > 0 && ValidStyle(style)
    ensures ValidPairs(LayoutPairs(style, level, ms)) && PairCommasAllowed(f, LayoutPairs(style, level, ms))
    ensures PairsTaken(f, LayoutPairs(style, level, ms)) <==>
            (f.validateEncoding ==> MembersWritable(Compact(true), ms))
    decreases ms, 0
  {
    hide Layout, TreeTaken, ValidTree, CommasAllowed, Escaped, CharsTaken, PairValues, Utf8.IsUtf8;
    LayoutPairsMeaning(style, level, ms);
    EscapedTaken(style, f, ms[0].name);
    LayoutTaken(style, f, level, ms[0].value);
    if |ms| > 1 {
      LayoutPairsTaken(style, f, level, ms[1..]);
    }
  }

  /** The printed text of a value. */
  function Printed(style: Style, v: JSON): Text
    requires Writable(style, v)
  {
    TreeText(Layout(style, 0, v))
  }

  /** Print, then parse: every writable value comes back, whatever bytes its strings hold; with
      kParseValidateEncodingFlag exactly those whose strings are UTF-8. */
  lemma PrintedIsRead(style: Style, f: Flags, v: JSON)
    requires Writable(style, v) && ValidStyle(style) && Completeness.PlainFlags(f)
    ensures var r := Recursive.Parse(f, Printed(style, v));
            && (r.Ok? <==> AllReadable(f, v))
            && (r.Ok? ==>
                 r.pos == |Printed(style, v)| && CanonicalAll(r.log) == Events(v) && Dom.Run([], r.log) == Some([v]))
  {
    hide Recursive.Parse, Layout, TreeText, TreeLog, Dom.Step, Events, CanonicalAll, TreeValue, ValidTree, TreeTaken,
         CommasAllowed;
    LayoutMeaning(style, 0, v);
    LayoutTaken(style, f, 0, v);
    var d := Document([], Layout(style, 0, v), []);
    assert DocumentText(d) == Printed(style, v);
    Completeness.DocumentAccepted(f, d);
    Dom.ReplayBuilds([], v);
    Dom.RunCanonical([], Recursive.Parse(f, Printed(style, v)).log);
    assert [] + [v] == [v];
  }
}
