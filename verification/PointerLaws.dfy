/** Pointer strings: how many tokens, how much name buffer, and that parsing and printing are inverse. */
module PointerLaws {
  import opened Bytes
  import opened Json
  import opened Path
  import opened Pointers
  import Utf8
  import DocumentPath

  // ---- Token count and name buffer ----

  /** How many solidi stand in the text from offset `i` on. */
  function CountSolidi(s: Text, i: nat): nat
    decreases |s| - i
  {
    if i >= |s| then 0 else (if s[i] == SLASH then 1 else 0) + CountSolidi(s, i + 1)
  }

  lemma {:induction false} TripletsSolidi(s: Text, i: nat, n: nat)
    requires n <= |Triplets(s, i)|
    ensures CountSolidi(s, i) == CountSolidi(s, i + 3 * n)
    decreases n
  {
    if n > 0 {
      assert CountSolidi(s, i) == CountSolidi(s, i + 1) == CountSolidi(s, i + 2) == CountSolidi(s, i + 3);
      TripletsSolidi(s, i + 3, n - 1);
    }
  }

  lemma EscapeSolidi(s: Text, i: nat)
    requires ScanEscape(s, i).Units?
    ensures CountSolidi(s, i) == CountSolidi(s, i + 1)
  {
  }

  lemma UnitSolidi(uri: bool, s: Text, i: nat)
    requires i < |s| && s[i] != SLASH && ScanUnit(uri, s, i).Units?
    ensures CountSolidi(s, i) == CountSolidi(s, ScanUnit(uri, s, i).next)
  {
    hide Triplets, ScanEscape;
    if uri && s[i] == PERCENT {
      var d := DecodePercent(s, i).value;
      TripletsSolidi(s, i, |d|);
      if |d| == 1 && d[0] == TILDE {
        EscapeSolidi(s, i + 3);
      }
    } else if s[i] == TILDE {
      EscapeSolidi(s, i + 1);
    }
  }

  lemma {:induction false} NameSolidi(uri: bool, s: Text, i: nat, name: Text)
    requires i <= |s| && ScanName(uri, s, i, name).NameEnd?
    ensures var r := ScanName(uri, s, i, name);
            CountSolidi(s, i) == CountSolidi(s, r.next) && |r.name| - |name| <= r.next - i
    decreases |s| - i
  {
    hide ScanUnit, CountSolidi;
    if i < |s| && s[i] != SLASH {
      var u := ScanUnit(uri, s, i);
      UnitSolidi(uri, s, i);
      NameSolidi(uri, s, u.next, name + u.units);
    }
  }

  /** What the names and their terminators take up in the name buffer. */
  function NameUnits(tokens: seq<Token>): nat {
    if tokens == [] then 0 else NameUnits(tokens[..|tokens| - 1]) + |tokens[|tokens| - 1].name| + 1
  }

  lemma NameUnitsAppend(tokens: seq<Token>, t: Token)
    ensures NameUnits(tokens + [t]) == NameUnits(tokens) + |t.name| + 1
  {
    assert (tokens + [t])[..|tokens|] == tokens;
  }

  lemma {:induction false} TokensCounted(uri: bool, s: Text, i: nat, tokens: seq<Token>)
    requires i <= |s| && (i == |s| || s[i] == SLASH) && ScanTokens(uri, s, i, tokens).Tokens?
    ensures var r := ScanTokens(uri, s, i, tokens).tokens;
            |r| == |tokens| + CountSolidi(s, i) && NameUnits(r) <= NameUnits(tokens) + (|s| - i)
    decreases |s| - i
  {
    hide ScanName, IndexOf, NameUnits;
    if i < |s| {
      var n := ScanName(uri, s, i + 1, []);
      var t := Token(n.name, IndexOf(n.name));
      NameSolidi(uri, s, i + 1, []);
      NameUnitsAppend(tokens, t);
      TokensCounted(uri, s, n.next, tokens + [t]);
    }
  }

  /** A parsed pointer has one token per solidus, and its names fit the buffer of one unit per unit of the text. */
  lemma ParsedSize(s: Text)
    requires Parse(s).Tokens?
    ensures |Parse(s).tokens| == CountSolidi(s, 0) && NameUnits(Parse(s).tokens) <= |s|
  {
    hide ScanTokens;
    TokensCounted(Start(s) == 1, s, Start(s), []);
    if Start(s) == 1 {
      assert CountSolidi(s, 0) == CountSolidi(s, 1);
    }
  }

  // ---- Printing, then parsing ----

  predicate Ends(s: Text, j: nat) {
    j == |s| || (j < |s| && s[j] == SLASH)
  }

  /** Any unit that is not percent-encoded. */
  lemma PlainUnitScanned(uri: bool, s: Text, i: nat, c: Byte)
    requires At(s, i, EscapeUnit(c)) && (c == TILDE || c == SLASH || !uri || !NeedPercentEncode(c))
    ensures i < |s| && s[i] != SLASH && ScanUnit(uri, s, i) == Units(i + |EscapeUnit(c)|, [c])
  {
    AtIndex(s, i, EscapeUnit(c), 0);
    if c == TILDE || c == SLASH {
      AtIndex(s, i, EscapeUnit(c), 1);
    }
  }

  lemma {:induction false} TripletsRead(s: Text, i: nat, u: Text)
    requires At(s, i, PercentTriplets(u))
    ensures |u| <= |Triplets(s, i)| && Triplets(s, i)[..|u|] == u
    decreases |u|
  {
    if u != [] {
      AtConcat(s, i, PercentTriplet(u[0]), PercentTriplets(u[1..]));
      var t := PercentTriplet(u[0]);
      AtIndex(s, i, t, 0);
      AtIndex(s, i, t, 1);
      AtIndex(s, i, t, 2);
      TripletsRead(s, i + 3, u[1..]);
      assert Triplets(s, i) == [u[0]] + Triplets(s, i + 3);
    }
  }

  /** A percent-encoded UTF-8 character is read back whole, whatever follows it. */
  lemma PercentUnitScanned(s: Text, i: nat, u: Text)
    requires Utf8.IsUtf8Char(u) && At(s, i, PercentTriplets(u)) && u != [TILDE]
    ensures i < |s| && s[i] == PERCENT && ScanUnit(true, s, i) == Units(i + 3 * |u|, u)
  {
    hide Triplets, Utf8.Validate, Utf8.Decode, Utf8.IsUtf8Char;
    TripletsRead(s, i, u);
    CharNonempty(u);
    var units := Triplets(s, i);
    assert units[0..|u|] == u;
    Utf8.DecodeExact(units, 0);
    Utf8.ValidateAgrees(units, 0);
    FirstPercent(s, i, u);
  }

  lemma CharNonempty(u: Text)
    requires Utf8.IsUtf8Char(u)
    ensures u != []
  {
  }

  lemma FirstPercent(s: Text, i: nat, u: Text)
    requires u != [] && At(s, i, PercentTriplets(u))
    ensures i < |s| && s[i] == PERCENT
  {
    AtIndex(s, i, PercentTriplets(u), 0);
  }

  lemma NameStep(uri: bool, s: Text, i: nat, next: nat, units: Text, acc: Text)
    requires i < |s| && s[i] != SLASH && ScanUnit(uri, s, i) == Units(next, units)
    ensures next <= |s| && ScanName(uri, s, i, acc) == ScanName(uri, s, next, acc + units)
  {
    hide ScanUnit;
  }

  lemma NameStop(uri: bool, s: Text, i: nat, acc: Text)
    requires Ends(s, i)
    ensures ScanName(uri, s, i, acc) == NameEnd(i, acc)
  {
    hide ScanUnit;
  }

  /** A name whose first character is percent-encoded. */
  lemma EncodedFirst(name: Text)
    requires name != [] && name[0] != TILDE && name[0] != SLASH && NeedPercentEncode(name[0]) &&
             NameText(true, name).Some?
    ensures var n := Utf8.Validate(name, 0).next;
            && 0 < n <= |name| && Utf8.IsUtf8Char(name[..n]) && NameText(true, name[n..]).Some?
            && NameText(true, name).value == PercentTriplets(name[..n]) + NameText(true, name[n..]).value
  {
    hide Utf8.Validate, Utf8.Decode, Utf8.IsUtf8Char, PercentTriplets;
    Utf8.ValidateAgrees(name, 0);
    Utf8.DecodeExact(name, 0);
  }

  /** A name whose first character stands for itself or for its escape. */
  lemma PlainFirst(uri: bool, name: Text)
    requires name != [] && NameText(uri, name).Some?
    requires name[0] == TILDE || name[0] == SLASH || !uri || !NeedPercentEncode(name[0])
    ensures NameText(uri, name[1..]).Some? &&
            NameText(uri, name).value == EscapeUnit(name[0]) + NameText(uri, name[1..]).value
  {
    hide EscapeUnit, NeedPercentEncode, Utf8.Validate;
  }

  lemma NothingNamed(uri: bool)
    ensures NameText(uri, []) == Some([])
  {
  }

  lemma {:induction false} NameScanned(uri: bool, s: Text, i: nat, name: Text, acc: Text)
    requires NameText(uri, name).Some? && At(s, i, NameText(uri, name).value) &&
             Ends(s, i + |NameText(uri, name).value|)
    ensures i <= |s| && ScanName(uri, s, i, acc) == NameEnd(i + |NameText(uri, name).value|, acc + name)
    decreases |name|
  {
    hide ScanUnit, ScanName, Utf8.Validate, Utf8.IsUtf8Char, NeedPercentEncode, EscapeUnit, PercentTriplets, NameText,
         At, Ends;
    if name == [] {
      NothingNamed(uri);
      assert acc + name == acc;
      NameStop(uri, s, i, acc);
    } else {
      var c := name[0];
      if c == TILDE || c == SLASH || !uri || !NeedPercentEncode(c) {
        PlainFirst(uri, name);
        AtConcat(s, i, EscapeUnit(c), NameText(uri, name[1..]).value);
        PlainUnitScanned(uri, s, i, c);
        NameStep(uri, s, i, i + |EscapeUnit(c)|, [c], acc);
        NameScanned(uri, s, i + |EscapeUnit(c)|, name[1..], acc + [c]);
        assert acc + [c] + name[1..] == acc + name;
      } else {
        EncodedFirst(name);
        var n := Utf8.Validate(name, 0).next;
        var u := name[..n];
        AtConcat(s, i, PercentTriplets(u), NameText(true, name[n..]).value);
        assert u[0] == c;
        PercentUnitScanned(s, i, u);
        NameStep(true, s, i, i + 3 * n, u, acc);
        NameScanned(true, s, i + 3 * n, name[n..], acc + u);
        assert acc + u + name[n..] == acc + name;
      }
    }
  }

  lemma {:induction false} TokensScanned(uri: bool, s: Text, i: nat, tokens: seq<Token>, acc: seq<Token>)
    requires Consistent(tokens) && TokensText(uri, tokens).Some?
    requires At(s, i, TokensText(uri, tokens).value) && i + |TokensText(uri, tokens).value| == |s|
    ensures i == |s| || s[i] == SLASH
    ensures ScanTokens(uri, s, i, acc) == Tokens(acc + tokens)
    decreases |tokens|
  {
    hide ScanName, NameText, IndexOf;
    if tokens == [] {
      assert acc + tokens == acc;
    } else {
      var t := tokens[0];
      var first, rest := NameText(uri, t.name).value, TokensText(uri, tokens[1..]).value;
      AtConcat(s, i, [SLASH] + first, rest);
      AtConcat(s, i, [SLASH], first);
      AtIndex(s, i, [SLASH], 0);
      var j := i + 1 + |first|;
      TokensScanned(uri, s, j, tokens[1..], acc + [t]);
      NameScanned(uri, s, i + 1, t.name, []);
      assert [] + t.name == t.name;
      assert acc + [t] + tokens[1..] == acc + tokens;
    }
  }

  /** Whatever Stringify prints is parsed to the same pointer, in both representations. */
  lemma PrintedIsParsed(uri: bool, tokens: seq<Token>)
    requires Consistent(tokens) && Stringify(uri, tokens).Some?
    ensures Parse(Stringify(uri, tokens).value) == Tokens(tokens)
  {
    hide ScanTokens, TokensText, IndexOf;
    var s := Stringify(uri, tokens).value;
    var t := TokensText(uri, tokens).value;
    assert s[Start(s)..] == t && (uri <==> Start(s) == 1) by { StartOf(uri, tokens); }
    TokensScanned(uri, s, Start(s), tokens, []);
    assert [] + tokens == tokens;
  }

  lemma StartOf(uri: bool, tokens: seq<Token>)
    requires Stringify(uri, tokens).Some?
    ensures var s := Stringify(uri, tokens).value;
            (uri <==> Start(s) == 1) && s[Start(s)..] == TokensText(uri, tokens).value
  {
    hide NameText;
  }

  /** Printing to a URI fragment succeeds exactly if every name is UTF-8; plain printing always does. */
  lemma {:induction false} NameTextSome(uri: bool, name: Text)
    ensures NameText(uri, name).Some? <==> !uri || Utf8.IsUtf8(name)
    decreases |name|
  {
    hide Utf8.Decode, Utf8.Validate;
    if name != [] {
      var c := name[0];
      Utf8.ValidateAgrees(name, 0);
      Utf8.DecodeExact(name, 0);
      if c == TILDE || c == SLASH || !uri || !NeedPercentEncode(c) {
        NameTextSome(uri, name[1..]);
        if uri {
          AsciiDecode(name);
        }
      } else if Utf8.Decode(name, 0).ok {
        NameTextSome(uri, name[Utf8.Decode(name, 0).next..]);
      }
    }
  }

  lemma AsciiDecode(name: Text)
    requires name != [] && name[0] < 0x80
    ensures Utf8.Decode(name, 0).ok && Utf8.Decode(name, 0).next == 1
  {
  }

  predicate AllUtf8(tokens: seq<Token>) {
    forall i :: 0 <= i < |tokens| ==> Utf8.IsUtf8(tokens[i].name)
  }

  lemma {:induction false} TokensTextSome(uri: bool, tokens: seq<Token>)
    ensures TokensText(uri, tokens).Some? <==> !uri || AllUtf8(tokens)
    decreases |tokens|
  {
    hide NameText, Utf8.IsUtf8;
    if tokens != [] {
      NameTextSome(uri, tokens[0].name);
      TokensTextSome(uri, tokens[1..]);
    }
  }

  /** Parsing what a parsed pointer prints gives the pointer back: always in the plain form, and in the fragment form
      exactly for names that are UTF-8, the others being refused. */
  lemma RoundTrip(uri: bool, s: Text)
    requires Parse(s).Tokens?
    ensures var printed := Stringify(uri, Parse(s).tokens);
            && (printed.Some? <==> !uri || AllUtf8(Parse(s).tokens))
            && (printed.Some? ==> Parse(printed.value) == Parse(s))
  {
    hide Parse, TokensText;
    ParsedConsistent(s);
    TokensTextSome(uri, Parse(s).tokens);
    if Stringify(uri, Parse(s).tokens).Some? {
      PrintedIsParsed(uri, Parse(s).tokens);
    }
  }

  // ---- Parsing, then printing ----

  lemma {:induction false} PlainNameText(name: Text)
    ensures NameText(false, name) == Some(EscapeName(name))
    decreases |name|
  {
    if name != [] {
      PlainNameText(name[1..]);
    }
  }

  lemma UnitPrinted(s: Text, i: nat)
    requires i < |s| && s[i] != SLASH && ScanUnit(false, s, i).Units?
    ensures var u := ScanUnit(false, s, i); |u.units| == 1 && EscapeUnit(u.units[0]) == s[i..u.next]
  {
  }

  /** A plain name prints as the text it was read from. */
  lemma {:induction false} NamePrinted(s: Text, i: nat, acc: Text)
    requires i <= |s| && ScanName(false, s, i, acc).NameEnd?
    ensures var r := ScanName(false, s, i, acc); acc <= r.name && EscapeName(r.name[|acc|..]) == s[i..r.next]
    decreases |s| - i
  {
    hide ScanUnit, EscapeUnit;
    if i < |s| && s[i] != SLASH {
      var u := ScanUnit(false, s, i);
      UnitPrinted(s, i);
      NamePrinted(s, u.next, acc + u.units);
      var r := ScanName(false, s, i, acc);
      var w := r.name[|acc|..];
      assert w[0] == u.units[0] && w[1..] == r.name[|acc + u.units|..];
      assert s[i..u.next] + s[u.next..r.next] == s[i..r.next];
    }
  }

  lemma {:induction false} TokensTextAppend(uri: bool, tokens: seq<Token>, t: Token)
    requires TokensText(uri, tokens).Some? && NameText(uri, t.name).Some?
    ensures TokensText(uri, tokens + [t]) ==
            Some(TokensText(uri, tokens).value + ([SLASH] + NameText(uri, t.name).value))
    decreases |tokens|
  {
    hide NameText;
    var text := [SLASH] + NameText(uri, t.name).value;
    if tokens == [] {
      assert [t][1..] == [];
      assert text + [] == text && [] + text == text;
      assert TokensText(uri, [t]) == Some(text + []);
      assert tokens + [t] == [t];
    } else {
      assert (tokens + [t])[1..] == tokens[1..] + [t];
      TokensTextAppend(uri, tokens[1..], t);
      var first := [SLASH] + NameText(uri, tokens[0].name).value;
      Assoc(first, TokensText(uri, tokens[1..]).value, text);
    }
  }

  lemma {:induction false} TokensPrinted(s: Text, i: nat, tokens: seq<Token>)
    requires i <= |s| && (i == |s| || s[i] == SLASH) && ScanTokens(false, s, i, tokens).Tokens?
    requires TokensText(false, tokens) == Some(s[..i])
    ensures TokensText(false, ScanTokens(false, s, i, tokens).tokens) == Some(s)
    decreases |s| - i
  {
    hide ScanName, TokensText, IndexOf, NameText, EscapeName;
    if i == |s| {
      assert s[..i] == s;
    } else {
      var n := ScanName(false, s, i + 1, []);
      var t := Token(n.name, IndexOf(n.name));
      NamePrinted(s, i + 1, []);
      assert n.name[0..] == n.name;
      PlainNameText(n.name);
      TokensTextAppend(false, tokens, t);
      assert s[..i] + ([SLASH] + s[i + 1..n.next]) == s[..n.next];
      TokensPrinted(s, n.next, tokens + [t]);
    }
  }

  /** Printing a parsed plain pointer gives its text back. */
  lemma PlainIsPrinted(s: Text)
    requires Parse(s).Tokens? && Peek(s, 0) != HASH
    ensures Stringify(false, Parse(s).tokens) == Some(s)
  {
    hide ScanTokens;
    assert s[..0] == [];
    TokensPrinted(s, 0, []);
  }

  // ---- The path of a validator ----

  function StepPointer(t: PathStep): Token {
    match t
    case Name(n) => Token(n, IndexOf(n))
    case Index(i) => Token(Decimal(i), IndexOf(Decimal(i)))
  }

  function PlacePointer(p: DocumentPath.Place): (ts: seq<Token>)
    ensures Consistent(ts)
  {
    match p
    case Outside => []
    case Inside(child, _, _, outer) => PlacePointer(outer) + if child.Some? then [StepPointer(child.value)] else []
  }

  lemma {:induction false} DigitsUnescaped(ds: Text)
    requires AllDigits(ds)
    ensures EscapeName(ds) == ds
    decreases |ds|
  {
    if ds != [] {
      DigitsUnescaped(ds[1..]);
    }
  }

  lemma {:induction false} PlaceText(p: DocumentPath.Place)
    ensures TokensText(false, PlacePointer(p)) == Some(DocumentPath.PathText(p))
    decreases p
  {
    hide TokensText, NameText;
    match p
    case Outside => NoTokens();
    case Inside(child, _, _, outer) =>
      PlaceText(outer);
      var ts := PlacePointer(outer);
      if child.Some? {
        var t := StepPointer(child.value);
        PlainNameText(t.name);
        if child.value.Index? {
          DigitsUnescaped(Decimal(child.value.index));
        }
        TokensTextAppend(false, ts, t);
      } else {
        assert ts + [] == ts && DocumentPath.PathText(outer) + [] == DocumentPath.PathText(outer);
      }
  }

  lemma NoTokens()
    ensures TokensText(false, []) == Some([])
  {
  }

  /** GetInvalidDocumentPointer: parsing the path of a validator gives the keys and indices of the place. */
  lemma PathIsParsed(p: DocumentPath.Place)
    ensures Parse(DocumentPath.PathText(p)) == Tokens(PlacePointer(p))
  {
    hide Parse, TokensText, DocumentPath.PathText;
    PlaceText(p);
    PrintedIsParsed(false, PlacePointer(p));
  }

  // ---- A name with NUL ----

  /** The text #/a%00b is a pointer with one token, whose name holds a NUL. */
  lemma NulNameParsed()
    ensures Parse([HASH, SLASH, LETTER_A, PERCENT, ZERO, ZERO, LETTER_B]) ==
            Tokens([Token([LETTER_A, NUL, LETTER_B], INVALID_INDEX)])
  {
    hide Parse;
    var name: Text := [LETTER_A, NUL, LETTER_B];
    var t := Token(name, INVALID_INDEX);
    assert !IsDigit(name[0]);
    assert NameText(true, [LETTER_B]) == Some([LETTER_B]) by {
      assert [LETTER_B][1..] == [] && EscapeUnit(LETTER_B) + [] == [LETTER_B];
    }
    assert NameText(true, [NUL, LETTER_B]) == Some([PERCENT, ZERO, ZERO, LETTER_B]) by {
      var v := Utf8.Validate([NUL, LETTER_B], 0);
      assert v.ok && v.next == 1 && v.out == [NUL];
      assert [NUL, LETTER_B][1..] == [LETTER_B];
      assert [NUL][1..] == [] && PercentTriplets([]) == [] && PercentTriplet(NUL) == [PERCENT, ZERO, ZERO];
      assert PercentTriplets([NUL]) == [PERCENT, ZERO, ZERO];
      assert [PERCENT, ZERO, ZERO] + [LETTER_B] == [PERCENT, ZERO, ZERO, LETTER_B];
    }
    assert NameText(true, name) == Some([LETTER_A, PERCENT, ZERO, ZERO, LETTER_B]) by {
      assert name[1..] == [NUL, LETTER_B];
      assert EscapeUnit(LETTER_A) + [PERCENT, ZERO, ZERO, LETTER_B] == [LETTER_A, PERCENT, ZERO, ZERO, LETTER_B];
    }
    assert TokensText(true, [t]) == Some([SLASH, LETTER_A, PERCENT, ZERO, ZERO, LETTER_B]) by {
      assert [t][1..] == [] && TokensText(true, []) == Some([]);
      assert [SLASH] + [LETTER_A, PERCENT, ZERO, ZERO, LETTER_B] + [] ==
             [SLASH, LETTER_A, PERCENT, ZERO, ZERO, LETTER_B];
    }
    assert [HASH] + [SLASH, LETTER_A, PERCENT, ZERO, ZERO, LETTER_B] ==
           [HASH, SLASH, LETTER_A, PERCENT, ZERO, ZERO, LETTER_B];
    PrintedIsParsed(true, [t]);
  }
}
