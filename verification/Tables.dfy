/** The characters and small tables of the formats, written out: what the other modules name by number. */
module Tables {
  import opened Bytes
  import opened Json
  import opened Scanner
  import opened Grammar
  import Printing
  import Pointers
  import Path
  import Utf8

  /** The byte is one of the characters. */
  predicate OneOf(c: Byte, s: string) {
    exists i :: 0 <= i < |s| && s[i] as int == c
  }

  /** The bytes are the characters of `s`. */
  predicate Spelled(t: Text, s: string) {
    |t| == |s| && forall i :: 0 <= i < |s| ==> t[i] == s[i] as int
  }

  predicate Between(c: Byte, first: char, last: char) {
    first as int <= c <= last as int
  }

  // ---- Characters ----

  lemma NamedCharacters()
    ensures Spelled([TAB, LF, CR, SPACE, QUOTE, HASH, PERCENT, STAR, PLUS, COMMA], "\t\n\r \"#%*+,")
    ensures Spelled([MINUS, DOT, SLASH, ZERO, ONE, NINE, COLON, BACKSLASH, LETTER_A, LETTER_B], "-./019:\\ab")
    ensures Spelled([LBRACKET, RBRACKET, LBRACE, RBRACE, TILDE, LETTER_U, LETTER_E, CAPITAL_E], "[]{}~ueE")
    ensures Spelled(NULL_WORD, "null") && Spelled(TRUE_WORD, "true") && Spelled(FALSE_WORD, "false")
    ensures Spelled(NAN_WORD, "NaN") && Spelled(INF_WORD, "Inf") && Spelled(INITY_WORD, "inity")
  {
  }

  /** ws of RFC 8259 section 2. */
  lemma SpaceExact(c: Byte)
    ensures IsSpace(c) <==> OneOf(c, " \t\n\r")
  {
    var s := " \t\n\r";
    assert s[0] as int == SPACE && s[1] as int == TAB && s[2] as int == LF && s[3] as int == CR;
  }

  // ---- Hexadecimal digits ----

  const UPPER_HEX := "0123456789ABCDEF"
  const LOWER_HEX := "0123456789abcdef"

  /** `c` is the hexadecimal digit of value `d`, in either case. */
  predicate HexDigitOf(c: Byte, d: nat) {
    d < 16 && (c == UPPER_HEX[d] as int || c == LOWER_HEX[d] as int)
  }

  lemma HexExact(c: Byte, d: nat)
    ensures HexDigitOf(c, d) <==> IsHex(c) && HexValue(c) == d
    ensures d < 16 ==> HexDigit(d) == UPPER_HEX[d] as int
  {
  }

  /** The four digits of a code unit, most significant first, each in either case. */
  predicate Hex4Of(hex: Text, n: nat) {
    && |hex| == 4
    && HexDigitOf(hex[0], n / 0x1000) && HexDigitOf(hex[1], n / 0x100 % 0x10)
    && HexDigitOf(hex[2], n / 0x10 % 0x10) && HexDigitOf(hex[3], n % 0x10)
  }

  lemma CodeUnitExact(hex: Text, n: nat)
    ensures Hex4Of(hex, n) <==> IsHex4(hex) && CodeUnit(hex) == n
  {
    hide HexValue, IsHex, HexDigitOf, CodeUnit;
    if |hex| == 4 {
      HexExact(hex[0], n / 0x1000);
      HexExact(hex[1], n / 0x100 % 0x10);
      HexExact(hex[2], n / 0x10 % 0x10);
      HexExact(hex[3], n % 0x10);
      if IsHex4(hex) {
        var a, b, c, d := HexValue(hex[0]), HexValue(hex[1]), HexValue(hex[2]), HexValue(hex[3]);
        assert CodeUnit(hex) == ((a * 16 + b) * 16 + c) * 16 + d by { UnitOf(hex); }
        FourDigits(a, b, c, d, n);
      }
    }
  }

  lemma UnitOf(hex: Text)
    requires IsHex4(hex)
    ensures CodeUnit(hex) ==
            ((HexValue(hex[0]) * 16 + HexValue(hex[1])) * 16 + HexValue(hex[2])) * 16 + HexValue(hex[3])
  {
    hide HexValue, IsHex;
  }

  lemma FourDigits(a: nat, b: nat, c: nat, d: nat, n: nat)
    requires a < 16 && b < 16 && c < 16 && d < 16
    ensures ((a * 16 + b) * 16 + c) * 16 + d == n <==>
            a == n / 0x1000 && b == n / 0x100 % 0x10 && c == n / 0x10 % 0x10 && d == n % 0x10
  {
    var x, y := n / 0x10, n / 0x100;
    assert y == x / 0x10 && n / 0x1000 == y / 0x10;
  }

  /** The upper-case digits of a code unit, which is how they are written. */
  lemma UnitWritten(n: nat)
    requires n <= 0xFFFF
    ensures var hex := Printing.Hex4Digits(n);
            Hex4Of(hex, n) && forall i :: 0 <= i < 4 ==> !Between(hex[i], 'a', 'f')
  {
    hide HexDigitOf, HexDigit;
    DigitWritten(n / 4096);
    DigitWritten(n / 256 % 16);
    DigitWritten(n / 16 % 16);
    DigitWritten(n % 16);
  }

  lemma DigitWritten(d: nat)
    requires d < 16
    ensures HexDigitOf(HexDigit(d), d) && !Between(HexDigit(d), 'a', 'f')
  {
  }

  // ---- Escapes in strings, RFC 8259 section 7 ----

  /** A \u escape of a code unit that is no leading surrogate, in digits of either case, is read as that code point. */
  lemma UnitRead(f: Flags, t: Text, p: nat, hex: Text, n: nat)
    requires At(t, p, [BACKSLASH, LETTER_U] + hex) && Hex4Of(hex, n) && !(0xD800 <= n < 0xDC00)
    ensures n <= 0xFFFF && ScanChar(f, t, p) == Got(p + 6, Utf8.Encode(n))
  {
    hide Hex4, HexAt, Utf8.Encode, Hex4Of, CodeUnit, IsHex4;
    EscapeAt(t, p, hex, n);
  }

  /** Above the basic plane, the two surrogates of UTF-16 (RFC 2781 section 2.1) stand for the code point. */
  lemma PairRead(f: Flags, t: Text, p: nat, lead: Text, trail: Text, c: Utf8.CodePoint)
    requires c >= 0x10000
    requires Hex4Of(lead, 0xD800 + (c - 0x10000) / 0x400) && Hex4Of(trail, 0xDC00 + (c - 0x10000) % 0x400)
    requires At(t, p, ([BACKSLASH, LETTER_U] + lead) + ([BACKSLASH, LETTER_U] + trail))
    ensures ScanChar(f, t, p) == Got(p + 12, Utf8.Encode(c))
  {
    hide Hex4, HexAt, Utf8.Encode, Hex4Of, CodeUnit, IsHex4, At;
    assert |lead| == 4 by { HexLength(lead, 0xD800 + (c - 0x10000) / 0x400); }
    AtConcat(t, p, [BACKSLASH, LETTER_U] + lead, [BACKSLASH, LETTER_U] + trail);
    EscapeAt(t, p, lead, 0xD800 + (c - 0x10000) / 0x400);
    EscapeAt(t, p + 6, trail, 0xDC00 + (c - 0x10000) % 0x400);
  }

  lemma HexLength(hex: Text, n: nat)
    requires Hex4Of(hex, n)
    ensures |hex| == 4
  {
  }

  lemma EscapeAt(t: Text, p: nat, hex: Text, n: nat)
    requires At(t, p, [BACKSLASH, LETTER_U] + hex) && Hex4Of(hex, n)
    ensures p + 6 <= |t| && t[p] == BACKSLASH && t[p + 1] == LETTER_U && HexAt(t, p + 2) &&
            Hex4(t, p + 2) == n <= 0xFFFF
  {
    hide HexValue, IsHex, HexDigitOf, CodeUnit;
    var s := [BACKSLASH, LETTER_U] + hex;
    CodeUnitExact(hex, n);
    assert forall i :: 0 <= i < 6 ==> t[p..p + 6][i] == s[i];
    assert forall i :: 0 <= i < 4 ==> t[p + 2 + i] == hex[i];
    UnitOf(hex);
  }

  /** The escape of two lower-case digits that stands for U+00E9. */
  lemma AcuteRead(f: Flags)
    ensures ScanChar(f, [BACKSLASH, LETTER_U, 0x30, 0x30, 0x65, 0x39, QUOTE], 0) == Got(6, [0xC3, 0xA9])
  {
    hide Hex4Of, ScanChar;
    var t: Text := [BACKSLASH, LETTER_U, 0x30, 0x30, 0x65, 0x39, QUOTE];
    var hex: Text := [0x30, 0x30, 0x65, 0x39];
    assert t[0..6] == [BACKSLASH, LETTER_U] + hex;
    assert Hex4Of(hex, 0xE9) by { AcuteDigits(); }
    UnitRead(f, t, 0, hex, 0xE9);
  }

  lemma AcuteDigits()
    ensures Hex4Of([0x30, 0x30, 0x65, 0x39], 0xE9)
  {
  }

  const SHORT_LETTERS := "\"\\bfnrt"
  const SHORT_MEANINGS: Text := [0x22, 0x5C, 0x08, 0x0C, 0x0A, 0x0D, 0x09]

  /** Behind a backslash the letter `e` stands for the byte `c`. */
  predicate ShortFor(e: Byte, c: Byte) {
    exists i :: 0 <= i < 7 && SHORT_LETTERS[i] as int == e && SHORT_MEANINGS[i] == c
  }

  /** The letters read, the solidus among them. */
  lemma UnescapeExact(e: Byte, c: Byte)
    requires c != NUL
    ensures Unescape(e) == c <==> ShortFor(e, c) || (e == c == '/' as int)
  {
    ShortRows();
  }

  lemma ShortRows()
    ensures SHORT_LETTERS[0] as int == 0x22 && SHORT_LETTERS[1] as int == 0x5C && SHORT_LETTERS[2] as int == 0x62
    ensures SHORT_LETTERS[3] as int == 0x66 && SHORT_LETTERS[4] as int == 0x6E && SHORT_LETTERS[5] as int == 0x72
    ensures SHORT_LETTERS[6] as int == 0x74
  {
  }

  /** A byte that has a letter is written with it. */
  lemma ShortWritten(e: Byte, c: Byte)
    requires ShortFor(e, c)
    ensures CharText(Printing.EscapeByte(c)) == [BACKSLASH, e]
  {
    hide Printing.Hex4Digits;
    ShortRows();
  }

  /** Other control characters are written as \u00XX with upper-case digits, and all other bytes as they are. */
  lemma OtherWritten(c: Byte)
    requires forall e: Byte :: !ShortFor(e, c)
    ensures CharText(Printing.EscapeByte(c)) ==
            if c < 0x20 then
              ['\\' as int, 'u' as int, '0' as int, '0' as int, UPPER_HEX[c / 16] as int, UPPER_HEX[c % 16] as int]
            else [c]
  {
    hide HexDigit, Printing.EscapeByte;
    ShortRows();
    assert Printing.EscapeLetter(c) == if c < 0x20 then LETTER_U else NUL by {
      var e := Printing.EscapeLetter(c);
      assert e != NUL && e != LETTER_U ==> ShortFor(e, c);
    }
    if c < 0x20 {
      ControlWritten(c);
    } else {
      LiteralWritten(c);
    }
  }

  lemma ControlWritten(c: Byte)
    requires c < 0x20 && Printing.EscapeLetter(c) == LETTER_U
    ensures CharText(Printing.EscapeByte(c)) ==
            [BACKSLASH, LETTER_U, '0' as int, '0' as int, UPPER_HEX[c / 16] as int, UPPER_HEX[c % 16] as int]
  {
    hide HexDigit, Printing.EscapeLetter;
    assert c / 4096 == 0 && c / 256 % 16 == 0 && c / 16 % 16 == c / 16;
    HexExact(0, c / 16);
    HexExact(0, c % 16);
    HexExact(0, 0);
  }

  lemma LiteralWritten(c: Byte)
    requires Printing.EscapeLetter(c) == NUL
    ensures CharText(Printing.EscapeByte(c)) == [c]
  {
    hide Printing.EscapeLetter;
  }

  // ---- Pointers ----

  /** The unreserved characters of RFC 3986 section 2.3. */
  predicate Unreserved(c: Byte) {
    Between(c, 'A', 'Z') || Between(c, 'a', 'z') || Between(c, '0', '9') || OneOf(c, "-._~")
  }

  lemma UnreservedExact(c: Byte)
    ensures Unreserved(c) <==> !Pointers.NeedPercentEncode(c)
  {
    var s := "-._~";
    assert s[0] as int == 0x2D && s[1] as int == 0x2E && s[2] as int == 0x5F && s[3] as int == 0x7E;
  }

  /** A triplet stands for the byte of its two digits, the first one the higher, in either case. */
  lemma TripletRead(s: Text, i: nat, d: nat, e: nat)
    requires i + 3 <= |s| && s[i] == '%' as int && HexDigitOf(s[i + 1], d) && HexDigitOf(s[i + 2], e)
    ensures Pointers.IsTriplet(s, i) && Pointers.TripletValue(s, i) == 16 * d + e
  {
    hide HexDigitOf, IsHex, HexValue;
    HexExact(s[i + 1], d);
    HexExact(s[i + 2], e);
  }

  lemma TripletWritten(c: Byte)
    ensures Pointers.PercentTriplet(c) == ['%' as int, UPPER_HEX[c / 16] as int, UPPER_HEX[c % 16] as int]
  {
    hide HexDigit;
    HexExact(0, c / 16);
    HexExact(0, c % 16);
  }

  /** What may stand in a pointer in URI fragment form. */
  predicate InFragment(c: Byte) {
    Unreserved(c) || OneOf(c, "/%")
  }

  lemma FragmentExact(c: Byte)
    ensures InFragment(c) <==> !Pointers.NeedPercentEncode(c) || c == SLASH || c == PERCENT
    ensures IsHex(c) ==> InFragment(c)
  {
    UnreservedExact(c);
    var s := "/%";
    assert s[0] as int == SLASH && s[1] as int == PERCENT;
  }

  predicate AllInFragment(s: Text) {
    forall i :: 0 <= i < |s| ==> InFragment(s[i])
  }

  lemma TripletInFragment(c: Byte)
    ensures AllInFragment(Pointers.PercentTriplet(c))
  {
    hide InFragment, HexDigit;
    DigitInFragment(c / 16);
    DigitInFragment(c % 16);
    FragmentExact(PERCENT);
  }

  lemma DigitInFragment(d: nat)
    requires d < 16
    ensures InFragment(HexDigit(d))
  {
    hide InFragment;
    FragmentExact(HexDigit(d));
  }

  lemma {:induction false} TripletsInFragment(s: Text)
    ensures AllInFragment(Pointers.PercentTriplets(s))
    decreases |s|
  {
    hide InFragment, Pointers.PercentTriplet;
    if s != [] {
      TripletInFragment(s[0]);
      TripletsInFragment(s[1..]);
    }
  }

  lemma {:induction false} NameInFragment(name: Text)
    ensures var r := Pointers.NameText(true, name); r.Some? ==> AllInFragment(r.value)
    decreases |name|
  {
    hide InFragment, Utf8.Validate, Pointers.PercentTriplets;
    if name != [] {
      var c := name[0];
      FragmentExact(c);
      FragmentExact(TILDE);
      FragmentExact(ZERO);
      FragmentExact(ONE);
      var v := Utf8.Validate(name, 0);
      Utf8.ValidateAgrees(name, 0);
      Utf8.DecodeExact(name, 0);
      NameInFragment(name[1..]);
      TripletsInFragment(v.out);
      if v.ok && 0 < v.next <= |name| {
        NameInFragment(name[v.next..]);
      }
    }
  }

  lemma {:induction false} TokensInFragment(tokens: seq<Pointers.Token>)
    ensures var r := Pointers.TokensText(true, tokens); r.Some? ==> AllInFragment(r.value)
    decreases |tokens|
  {
    hide InFragment, Pointers.NameText;
    if tokens != [] {
      FragmentExact(SLASH);
      NameInFragment(tokens[0].name);
      TokensInFragment(tokens[1..]);
    }
  }

  /** A pointer printed as a URI fragment holds only characters that RFC 3986 section 3.5 allows there. */
  lemma PrintedInFragment(tokens: seq<Pointers.Token>)
    ensures var r := Pointers.Stringify(true, tokens);
            r.Some? ==> r.value != [] && r.value[0] == '#' as int && AllInFragment(r.value[1..])
  {
    hide InFragment, Pointers.TokensText;
    TokensInFragment(tokens);
    var r := Pointers.TokensText(true, tokens);
    if r.Some? {
      assert ([HASH] + r.value)[1..] == r.value;
    }
  }

  /** The units of `s` from `i` up to `j`. */
  predicate RangeInFragment(s: Text, i: nat, j: nat) {
    forall k :: i <= k < j && k < |s| ==> InFragment(s[k])
  }

  lemma {:induction false} TripletsRange(s: Text, i: nat, n: nat)
    requires n <= |Pointers.Triplets(s, i)|
    ensures RangeInFragment(s, i, i + 3 * n)
    decreases n
  {
    hide InFragment;
    if n > 0 {
      FragmentExact(s[i]);
      FragmentExact(s[i + 1]);
      FragmentExact(s[i + 2]);
      TripletsRange(s, i + 3, n - 1);
    }
  }

  lemma UnitRange(s: Text, i: nat)
    requires i < |s| && s[i] != SLASH
    ensures var r := Pointers.ScanUnit(true, s, i); r.Units? ==> RangeInFragment(s, i, r.next)
  {
    hide InFragment, Pointers.NeedPercentEncode, Pointers.DecodePercent, Pointers.Triplets;
    FragmentExact(s[i]);
    FragmentExact(ZERO);
    FragmentExact(ONE);
    var d := Pointers.DecodePercent(s, i);
    if s[i] == PERCENT && d.Some? {
      TripletsRange(s, i, |d.value|);
    }
  }

  lemma {:induction false} NameRange(s: Text, i: nat, name: Text)
    requires i <= |s|
    ensures var r := Pointers.ScanName(true, s, i, name); r.NameEnd? ==> RangeInFragment(s, i, r.next)
    decreases |s| - i
  {
    hide InFragment, Pointers.ScanUnit;
    if i < |s| && s[i] != SLASH {
      UnitRange(s, i);
      var r := Pointers.ScanUnit(true, s, i);
      if r.Units? {
        NameRange(s, r.next, name + r.units);
      }
    }
  }

  lemma {:induction false} TokensRange(s: Text, i: nat, tokens: seq<Pointers.Token>)
    requires i <= |s| && (i == |s| || s[i] == SLASH)
    ensures Pointers.ScanTokens(true, s, i, tokens).Tokens? ==> RangeInFragment(s, i, |s|)
    decreases |s| - i
  {
    hide InFragment, Pointers.ScanName, Pointers.IndexOf;
    if i < |s| {
      FragmentExact(SLASH);
      NameRange(s, i + 1, []);
      match Pointers.ScanName(true, s, i + 1, [])
      case NameEnd(next, name) =>
        TokensRange(s, next, tokens + [Pointers.Token(name, Pointers.IndexOf(name))]);
      case NameError(_, _) =>
    }
  }

  /** A text in URI fragment form that holds any other character is no pointer. */
  lemma ParsedInFragment(s: Text)
    requires s != [] && s[0] == '#' as int && Pointers.Parse(s).Tokens?
    ensures AllInFragment(s[1..])
  {
    hide InFragment, Pointers.ScanTokens;
    TokensRange(s, 1, []);
  }

  /** The escapes of RFC 6901 section 3, written and read. */
  lemma TildeExact(uri: bool, c: Byte, rest: Text)
    ensures var s := Path.EscapeUnit(c);
            && (c == '~' as int <==> Spelled(s, "~0")) && (c == '/' as int <==> Spelled(s, "~1"))
            && (c != '~' as int && c != '/' as int ==> s == [c])
    ensures var r := Pointers.ScanUnit(uri, [TILDE, c] + rest, 0);
            && (r.Units? <==> OneOf(c, "01"))
            && (r.Units? ==> r.next == 2 && r.units == [if c == '0' as int then '~' as int else '/' as int])
  {
    var s := "01";
    assert s[0] as int == ZERO && s[1] as int == ONE;
  }

  // ---- Numerals ----

  /** The value of a numeral is that of its parts, the first one shifted by the digits of the second. */
  lemma {:induction false} NumeralConcat(a: Text, b: Text)
    requires AllDigits(a) && AllDigits(b)
    ensures AllDigits(a + b) && Numeral(a + b) == Numeral(a) * Power10(|b|) + Numeral(b)
    decreases |b|
  {
    if b == [] {
      assert a + b == a;
    } else {
      var init, d := b[..|b| - 1], b[|b| - 1];
      NumeralConcat(a, init);
      assert b == init + [d];
      NumeralAppend(init, d);
      NumeralAppend(a + init, d);
      assert a + b == (a + init) + [d];
      Shifted(Numeral(a), Power10(|init|), Numeral(init), d - ZERO);
    }
  }

  lemma Shifted(x: nat, p: nat, y: nat, d: nat)
    ensures (x * p + y) * 10 + d == x * (10 * p) + (y * 10 + d)
  {
    assert x * (10 * p) == 10 * (x * p);
  }

  lemma DigitExact(c: Byte)
    ensures IsDigit(c) <==> Between(c, '0', '9')
    ensures IsDigit(c) ==> AllDigits([c]) && HexDigitOf(c, Numeral([c]))
  {
    if IsDigit(c) {
      assert [c][..0] == [] && Numeral([]) == 0;
      HexExact(c, c - ZERO);
    }
  }

  /** Which integers are reported as integers, and by which of the four events. */
  lemma IntegerKinds(minus: bool, n: nat)
    ensures FitsInteger(minus, n) <==> n <= (if minus then 9_223_372_036_854_775_808 else 18_446_744_073_709_551_615)
    ensures FitsInteger(minus, n) ==>
              IntegerEvent(minus, n) ==
              if minus && n <= 2_147_483_648 then EInt(0 - n)
              else if minus then EInt64(0 - n)
              else if n < 4_294_967_296 then EUint(n)
              else EUint64(n)
  {
  }
}
