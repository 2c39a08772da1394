/** JSON Pointer strings (pointer.h, RFC 6901): parsing, printing, and their inverse laws in both representations. */
module Pointers {
  import opened Bytes
  import opened Json
  import opened Path
  import Utf8

  /** kPointerInvalidIndex, the largest SizeType. */
  const INVALID_INDEX: nat := 0xFFFF_FFFF
  const SIZE_MODULUS: nat := 0x1_0000_0000

  datatype Token = Token(name: Text, index: nat)

  datatype PointerError =
    | TokenMustBeginWithSolidus | InvalidEscape | InvalidPercentEncoding | CharacterMustPercentEncode

  datatype Parsed = Tokens(tokens: seq<Token>) | Invalid(code: PointerError, offset: nat)

  // ---- Array indices ----

  /** The conversion loop in SizeType arithmetic; a wrap is only noticed when the result drops. */
  function IndexLoop(name: Text, j: nat, n: nat): (r: nat)
    requires AllDigits(name) && j <= |name| && n < SIZE_MODULUS
    ensures r < SIZE_MODULUS
    decreases |name| - j
  {
    if j == |name| then n
    else
      var m := (n * 10 + (name[j] - ZERO)) % SIZE_MODULUS;
      if m < n then INVALID_INDEX else IndexLoop(name, j + 1, m)
  }

  /** A decimal without redundant leading zero. */
  predicate IsCanonical(name: Text) {
    name != [] && AllDigits(name) && (|name| > 1 ==> name[0] != ZERO)
  }

  function IndexOf(name: Text): (r: nat)
    ensures r < SIZE_MODULUS
  {
    if IsCanonical(name) then IndexLoop(name, 0, 0) else INVALID_INDEX
  }

  lemma {:induction false} IndexLoopExact(name: Text, j: nat)
    requires AllDigits(name) && j <= |name| && Numeral(name) < SIZE_MODULUS
    ensures Numeral(name[..j]) < SIZE_MODULUS
    ensures IndexLoop(name, j, Numeral(name[..j])) == Numeral(name)
    decreases |name| - j
  {
    hide Numeral;
    NumeralGrows(name, j);
    if j == |name| {
      assert name[..j] == name;
    } else {
      assert name[..j + 1] == name[..j] + [name[j]];
      NumeralAppend(name[..j], name[j]);
      NumeralGrows(name, j + 1);
      IndexLoopExact(name, j + 1);
    }
  }

  lemma NumeralEmpty()
    ensures Numeral([]) == 0
  {
  }

  /** The index of a canonical decimal is its value exactly as far as 32 bits reach. */
  lemma IndexExact(name: Text)
    requires IsCanonical(name)
    ensures IndexOf(name) == Numeral(name) <==> Numeral(name) < SIZE_MODULUS
  {
    hide Numeral, IndexLoop;
    if Numeral(name) < SIZE_MODULUS {
      IndexLoopExact(name, 0);
      assert name[..0] == [];
      NumeralEmpty();
    }
  }

  /** Beyond that a wrap may go unnoticed: "10000000000" is taken for the index 1410065408. */
  lemma WrapUnnoticed()
    ensures var ten: Text := [0x31, ZERO, ZERO, ZERO, ZERO, ZERO, ZERO, ZERO, ZERO, ZERO, ZERO];
            IsCanonical(ten) && IndexOf(ten) == 1410065408
  {
    TenBillion([0x31, ZERO, ZERO, ZERO, ZERO, ZERO, ZERO, ZERO, ZERO, ZERO, ZERO]);
  }

  lemma TenBillion(ten: Text)
    requires |ten| == 11 && ten[0] == ONE && forall i :: 1 <= i < 11 ==> ten[i] == ZERO
    ensures IsCanonical(ten) && IndexOf(ten) == 1410065408
  {
    hide IndexLoop;
    OneRead(ten);
    ZeroRead(ten, 1, 1);
    ZeroRead(ten, 2, 10);
    ZeroRead(ten, 3, 100);
    ZeroRead(ten, 4, 1000);
    ZeroRead(ten, 5, 10000);
    ZeroRead(ten, 6, 100000);
    ZeroRead(ten, 7, 1000000);
    ZeroRead(ten, 8, 10000000);
    ZeroRead(ten, 9, 100000000);
    LastRead(ten, 10, 1000000000);
  }

  lemma OneRead(name: Text)
    requires AllDigits(name) && name != [] && name[0] == ONE
    ensures IndexLoop(name, 0, 0) == IndexLoop(name, 1, 1)
  {
  }

  lemma LastRead(name: Text, j: nat, n: nat)
    requires AllDigits(name) && j + 1 == |name| && name[j] == ZERO && n < SIZE_MODULUS
    requires n * 10 % SIZE_MODULUS >= n
    ensures IndexLoop(name, j, n) == n * 10 % SIZE_MODULUS
  {
    assert IndexLoop(name, |name|, n * 10 % SIZE_MODULUS) == n * 10 % SIZE_MODULUS;
  }

  lemma ZeroRead(name: Text, j: nat, n: nat)
    requires AllDigits(name) && j < |name| && name[j] == ZERO && n * 10 < SIZE_MODULUS
    ensures IndexLoop(name, j, n) == IndexLoop(name, j + 1, n * 10)
  {
  }

  // ---- Percent encoding ----

  /** RFC 3986 section 2.3: everything but the unreserved characters. */
  predicate NeedPercentEncode(c: Byte) {
    !(IsDigit(c) || 0x41 <= c <= 0x5A || 0x61 <= c <= 0x7A || c == MINUS || c == DOT || c == 0x5F || c == TILDE)
  }

  predicate IsTriplet(s: Text, i: nat) {
    i + 3 <= |s| && s[i] == PERCENT && IsHex(s[i + 1]) && IsHex(s[i + 2])
  }

  function TripletValue(s: Text, i: nat): Byte
    requires IsTriplet(s, i)
  {
    HexValue(s[i + 1]) * 16 + HexValue(s[i + 2])
  }

  /** The code units of the triplets that stand in a row from offset `i`: what PercentDecodeStream can deliver. */
  function Triplets(s: Text, i: nat): Text
    decreases |s| - i
  {
    if IsTriplet(s, i) then [TripletValue(s, i)] + Triplets(s, i + 3) else []
  }

  /** One UTF-8 character read through PercentDecodeStream; None where the stream or the character is invalid. The
      stream delivers 0 where it turns invalid, as a text does behind its end. */
  function DecodePercent(s: Text, i: nat): (r: Option<Text>)
    ensures r.Some? ==> r.value != [] && i + 3 * |r.value| <= |s| && r.value <= Triplets(s, i)
  {
    var units := Triplets(s, i);
    if units == [] then None
    else
      var v := Utf8.Validate(units, 0);
      if v.ok && v.next <= |units| then
        Utf8.ValidateAgrees(units, 0);
        Utf8.DecodeExact(units, 0);
        TripletsFit(s, i);
        Some(v.out)
      else None
  }

  lemma {:induction false} TripletsFit(s: Text, i: nat)
    ensures Triplets(s, i) != [] ==> i + 3 * |Triplets(s, i)| <= |s|
    decreases |s| - i
  {
    if IsTriplet(s, i) {
      TripletsFit(s, i + 3);
    }
  }

  // ---- Parse ----

  /** One round of the inner loop: the units it adds to the name. */
  datatype UnitScan = Units(next: nat, units: Text) | UnitError(code: PointerError, offset: nat)

  /** The escape behind the tilde at the end of which the cursor stands. */
  function ScanEscape(s: Text, i: nat): (r: UnitScan)
    ensures r.Units? ==> r.next == i + 1 <= |s|
  {
    if i < |s| && s[i] == ZERO then Units(i + 1, [TILDE])
    else if i < |s| && s[i] == ONE then Units(i + 1, [SLASH])
    else UnitError(InvalidEscape, i)
  }

  function ScanUnit(uri: bool, s: Text, i: nat): (r: UnitScan)
    requires i < |s|
    ensures r.Units? ==> i < r.next <= |s| && i + |r.units| <= r.next
  {
    var c := s[i];
    if uri && c == PERCENT then
      var d := DecodePercent(s, i);
      if d.None? then UnitError(InvalidPercentEncoding, i)
      else if |d.value| > 1 then Units(i + 3 * |d.value|, d.value)
      else if d.value[0] == TILDE then ScanEscape(s, i + 3)
      else Units(i + 3, d.value)
    else if uri && NeedPercentEncode(c) then UnitError(CharacterMustPercentEncode, i)
    else if c == TILDE then ScanEscape(s, i + 1)
    else Units(i + 1, [c])
  }

  datatype NameScan = NameEnd(next: nat, name: Text) | NameError(code: PointerError, offset: nat)

  /** The inner loop: the name up to the next solidus, `name` read so far. */
  function ScanName(uri: bool, s: Text, i: nat, name: Text): (r: NameScan)
    requires i <= |s|
    ensures r.NameEnd? ==> i <= r.next <= |s| && (r.next == |s| || s[r.next] == SLASH)
    decreases |s| - i
  {
    if i == |s| || s[i] == SLASH then NameEnd(i, name)
    else
      match ScanUnit(uri, s, i)
      case Units(next, units) => ScanName(uri, s, next, name + units)
      case UnitError(code, offset) => NameError(code, offset)
  }

  /** The outer loop, at the end or at a solidus. */
  function ScanTokens(uri: bool, s: Text, i: nat, tokens: seq<Token>): Parsed
    requires i <= |s| && (i == |s| || s[i] == SLASH)
    decreases |s| - i
  {
    if i == |s| then Tokens(tokens)
    else
      match ScanName(uri, s, i + 1, [])
      case NameEnd(next, name) => ScanTokens(uri, s, next, tokens + [Token(name, IndexOf(name))])
      case NameError(code, offset) => Invalid(code, offset)
  }

  function Start(s: Text): nat {
    if Peek(s, 0) == HASH then 1 else 0
  }

  function Parse(s: Text): Parsed {
    var i := Start(s);
    if i != |s| && s[i] != SLASH then Invalid(TokenMustBeginWithSolidus, i) else ScanTokens(i == 1, s, i, [])
  }

  // ---- Stringify ----

  /** PercentEncodeStream::Put. */
  function PercentTriplet(c: Byte): (s: Text)
    ensures |s| == 3 && IsTriplet(s, 0) && TripletValue(s, 0) == c
  {
    [PERCENT, HexDigit(c / 16), HexDigit(c % 16)]
  }

  function PercentTriplets(s: Text): (r: Text)
    ensures |r| == 3 * |s|
  {
    if s == [] then [] else PercentTriplet(s[0]) + PercentTriplets(s[1..])
  }

  /** The inner loop of Stringify; None where a name is not UTF-8. */
  function NameText(uri: bool, name: Text): Option<Text>
    decreases |name|
  {
    if name == [] then Some([])
    else
      var c := name[0];
      if c == TILDE || c == SLASH || !uri || !NeedPercentEncode(c) then Prepend(EscapeUnit(c), NameText(uri, name[1..]))
      else
        var v := Utf8.Validate(name, 0);
        if !v.ok || v.next > |name| then None
        else
          Utf8.ValidateAgrees(name, 0);
          Utf8.DecodeExact(name, 0);
          Prepend(PercentTriplets(v.out), NameText(uri, name[v.next..]))
  }

  function Prepend(a: Text, b: Option<Text>): Option<Text> {
    if b.None? then None else Some(a + b.value)
  }

  function TokensText(uri: bool, tokens: seq<Token>): Option<Text>
    decreases |tokens|
  {
    if tokens == [] then Some([])
    else
      var first := NameText(uri, tokens[0].name);
      if first.None? then None else Prepend([SLASH] + first.value, TokensText(uri, tokens[1..]))
  }

  function Stringify(uri: bool, tokens: seq<Token>): Option<Text> {
    if uri then Prepend([HASH], TokensText(true, tokens)) else TokensText(false, tokens)
  }

  /** The index of a token follows from its name, as it does for every parsed token. */
  predicate Consistent(tokens: seq<Token>) {
    forall i :: 0 <= i < |tokens| ==> tokens[i].index == IndexOf(tokens[i].name)
  }

  lemma {:induction false} ScanConsistent(uri: bool, s: Text, i: nat, tokens: seq<Token>)
    requires i <= |s| && (i == |s| || s[i] == SLASH) && Consistent(tokens)
    ensures ScanTokens(uri, s, i, tokens).Tokens? ==> Consistent(ScanTokens(uri, s, i, tokens).tokens)
    decreases |s| - i
  {
    hide ScanName, IndexOf;
    if i < |s| {
      match ScanName(uri, s, i + 1, [])
      case NameEnd(next, name) => ScanConsistent(uri, s, next, tokens + [Token(name, IndexOf(name))]);
      case NameError(_, _) =>
    }
  }

  lemma ParsedConsistent(s: Text)
    requires Parse(s).Tokens?
    ensures Consistent(Parse(s).tokens)
  {
    hide ScanTokens;
    ScanConsistent(Start(s) == 1, s, Start(s), []);
  }
}
