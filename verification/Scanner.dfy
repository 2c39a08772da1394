/** The lexical level of reader.h: blanks and comments, strings, numbers and literal words. */
module Scanner {
  import opened Bytes
  import opened Json
  import opened Doubles
  import Utf8

  /** The parse flags that change what is read, and the platform's arithmetic; kParseInsituFlag and kParseIterativeFlag
      choose an algorithm. */
  datatype Flags = Flags(
    validateEncoding: bool, stopWhenDone: bool, comments: bool,
    numbersAsStrings: bool, trailingCommas: bool, nanAndInf: bool, arithmetic: Arithmetic)

  function DefaultFlags(a: Arithmetic): Flags {
    Flags(false, false, false, false, false, false, a)
  }

  datatype ErrorCode =
    | DocumentEmpty | DocumentRootNotSingular | ValueInvalid
    | ObjectMissName | ObjectMissColon | ObjectMissCommaOrCurlyBracket | ArrayMissCommaOrSquareBracket
    | StringUnicodeEscapeInvalidHex | StringUnicodeSurrogateInvalid | StringEscapeInvalid
    | StringMissQuotationMark | StringInvalidEncoding
    | NumberTooBig | NumberMissFraction | NumberMissExponent
    | UnspecificSyntaxError

  /** A scan either yields a value and the new cursor, or an error code and its offset. */
  datatype Scan<T> = Got(pos: nat, value: T) | Bad(code: ErrorCode, offset: nat)

  // ---- SkipWhitespaceAndComments ----

  function SkipSpaces(t: Text, p: nat): (q: nat)
    ensures p <= q && (p <= |t| ==> q <= |t|)
    ensures !IsSpace(Peek(t, q))
    decreases |t| - p
  {
    if IsSpace(Peek(t, p)) then SkipSpaces(t, p + 1) else p
  }

  /** Past the end of a block comment whose opening has been consumed. */
  function SkipBlock(t: Text, p: nat): (r: Scan<()>)
    ensures r.Got? ==> p < r.pos <= |t|
    decreases |t| - p
  {
    if Peek(t, p) == NUL then Bad(UnspecificSyntaxError, p)
    else if Peek(t, p) == STAR && Peek(t, p + 1) == SLASH then Got(p + 2, ())
    else SkipBlock(t, p + 1)
  }

  function SkipLine(t: Text, p: nat): (q: nat)
    ensures p <= q && (p <= |t| ==> q <= |t|)
    decreases |t| - p
  {
    if Peek(t, p) == NUL then p
    else if Peek(t, p) == LF then p + 1
    else SkipLine(t, p + 1)
  }

  /** Past one comment, whose first slash is at `p`. */
  function SkipComment(t: Text, p: nat): (r: Scan<()>)
    requires p < |t|
    ensures r.Got? ==> p < r.pos <= |t|
  {
    if Peek(t, p + 1) == STAR then SkipBlock(t, p + 2)
    else if Peek(t, p + 1) == SLASH then Got(SkipLine(t, p + 2), ())
    else Bad(UnspecificSyntaxError, p + 1)
  }

  function SkipComments(t: Text, p: nat): (r: Scan<()>)
    requires p <= |t|
    ensures r.Got? ==> p <= r.pos <= |t| && !IsSpace(Peek(t, r.pos))
    decreases |t| - p
  {
    var q := SkipSpaces(t, p);
    if Peek(t, q) != SLASH then Got(q, ())
    else
      var c := SkipComment(t, q);
      if c.Bad? then c else SkipComments(t, c.pos)
  }

  function Skip(f: Flags, t: Text, p: nat): (r: Scan<()>)
    requires p <= |t|
    ensures r.Got? ==> p <= r.pos <= |t| && !IsSpace(Peek(t, r.pos))
  {
    if f.comments then SkipComments(t, p) else Got(SkipSpaces(t, p), ())
  }

  // ---- ParseString ----

  /** The escape table of ParseStringToStream; NUL where there is no one-character escape. */
  function Unescape(e: Byte): Byte {
    if e == QUOTE || e == BACKSLASH || e == SLASH then e
    else if e == 0x62 then 0x08       // b
    else if e == 0x66 then 0x0C       // f
    else if e == 0x6E then LF         // n
    else if e == 0x72 then CR         // r
    else if e == 0x74 then TAB        // t
    else NUL
  }

  const LETTER_U: Byte := 0x75

  predicate HexAt(t: Text, p: nat) {
    IsHex(Peek(t, p)) && IsHex(Peek(t, p + 1)) && IsHex(Peek(t, p + 2)) && IsHex(Peek(t, p + 3))
  }

  function Hex4(t: Text, p: nat): (n: nat)
    requires HexAt(t, p)
    ensures n <= 0xFFFF
  {
    ((HexValue(Peek(t, p)) * 16 + HexValue(Peek(t, p + 1))) * 16 + HexValue(Peek(t, p + 2))) * 16 +
        HexValue(Peek(t, p + 3))
  }

  /** One \u escape whose backslash is at `p`: a code point below the surrogates or a surrogate pair. */
  function ScanUnicode(t: Text, p: nat): (r: Scan<Utf8.CodePoint>)
    ensures r.Got? ==> r.pos == p + 6 || r.pos == p + 12
  {
    if !HexAt(t, p + 2) then Bad(StringUnicodeEscapeInvalidHex, p)
    else
      var lead := Hex4(t, p + 2);
      if !(0xD800 <= lead <= 0xDBFF) then Got(p + 6, lead)
      else if Peek(t, p + 6) != BACKSLASH || Peek(t, p + 7) != LETTER_U then Bad(StringUnicodeSurrogateInvalid, p)
      else if !HexAt(t, p + 8) then Bad(StringUnicodeEscapeInvalidHex, p)
      else
        var trail := Hex4(t, p + 8);
        if !(0xDC00 <= trail <= 0xDFFF) then Bad(StringUnicodeSurrogateInvalid, p)
        else Got(p + 12, (lead - 0xD800) * 0x400 + (trail - 0xDC00) + 0x10000)
  }

  /** One character of a string body at `p`, which is not the closing quote: the bytes it stands for. */
  function ScanChar(f: Flags, t: Text, p: nat): (r: Scan<Text>)
    requires Peek(t, p) != QUOTE
    ensures r.Got? ==> p < r.pos <= |t| && |r.value| <= r.pos - p
  {
    var c := Peek(t, p);
    if c == BACKSLASH then
      var e := Peek(t, p + 1);
      if Unescape(e) != NUL then Got(p + 2, [Unescape(e)])
      else if e == LETTER_U then
        var u := ScanUnicode(t, p);
        if u.Bad? then Bad(u.code, u.offset) else Got(u.pos, Utf8.Encode(u.value))
      else Bad(StringEscapeInvalid, p)
    else if c == NUL then Bad(StringMissQuotationMark, p)
    else if c < 0x20 then Bad(StringEscapeInvalid, p)
    else if f.validateEncoding then
      Utf8.ValidateAgrees(t, p);
      Utf8.DecodeExact(t, p);
      var v := Utf8.Validate(t, p);
      if v.ok then Got(v.next, v.out) else Bad(StringInvalidEncoding, p)
    else Got(p + 1, [c])
  }

  /** ParseStringToStream from `p`, just after the opening quote, with `acc` already put. */
  function ScanString(f: Flags, t: Text, p: nat, acc: Text): (r: Scan<Text>)
    ensures r.Got? ==> p < r.pos <= |t|
    decreases |t| - p
  {
    if Peek(t, p) == QUOTE then Got(p + 1, acc)
    else
      var c := ScanChar(f, t, p);
      if c.Bad? then Bad(c.code, c.offset) else ScanString(f, t, c.pos, acc + c.value)
  }

  // ---- ParseNull, ParseTrue, ParseFalse ----

  /** How many characters of `word` the Consume chain takes at `p`. */
  function Matched(t: Text, p: nat, word: Text): (m: nat)
    ensures m <= |word|
    ensures m == |word| && word != [] && NUL !in word ==> At(t, p, word)
    decreases |word|
  {
    if word == [] || Peek(t, p) != word[0] then 0
    else
      var m := Matched(t, p + 1, word[1..]);
      assert m == |word| - 1 && NUL !in word ==> At(t, p, word) by {
        assert NUL !in word ==> NUL !in word[1..];
        assert [word[0]] + word[1..] == word;
        AtConcat(t, p, [word[0]], word[1..]);
      }
      1 + m
  }

  function ScanWord(t: Text, p: nat, word: Text): Scan<()> {
    var m := Matched(t, p, word);
    if m == |word| then Got(p + m, ()) else Bad(ValueInvalid, p + m)
  }

  // ---- ParseNumber ----

  function DigitsEnd(t: Text, p: nat): (q: nat)
    ensures p <= q && (p <= |t| ==> q <= |t|)
    ensures p <= |t| ==> AllDigits(t[p..q])
    ensures !IsDigit(Peek(t, q))
    ensures IsDigit(Peek(t, p)) ==> p < q
    decreases |t| - p
  {
    if IsDigit(Peek(t, p)) then DigitsEnd(t, p + 1) else p
  }

  /** The magnitude fits the 64-bit integer of its sign. */
  predicate FitsInteger(minus: bool, n: nat) {
    if minus then n <= -INT64_MIN else n <= UINT64_MAX
  }

  /** The value of `d` after the digits of an integer: converted where they still fit 64 bits, then accumulated. */
  function DoubleOf(a: Arithmetic, minus: bool, ds: Text): nat
    requires AllDigits(ds)
  {
    if FitsInteger(minus, Numeral(ds)) || ds == [] then (a.cast)(Numeral(ds))
    else (a.step)(DoubleOf(a, minus, ds[..|ds| - 1]), ds[|ds| - 1] - ZERO)
  }

  /** The scan gives up in front of some digit, because `d` has reached the limit. */
  predicate IntegerTooBig(a: Arithmetic, minus: bool, ds: Text)
    requires AllDigits(ds)
  {
    !FitsInteger(minus, Numeral(ds)) && ds != [] &&
    (ReachesLimit(DoubleOf(a, minus, ds[..|ds| - 1])) || IntegerTooBig(a, minus, ds[..|ds| - 1]))
  }

  /** The event ParseNumber sends for an integer that fits. */
  function IntegerEvent(minus: bool, n: nat): Event
    requires FitsInteger(minus, n)
  {
    var i: int := n;
    if minus then (if n <= -INT_MIN then EInt(-i) else EInt64(-i))
    else if n <= UINT_MAX then EUint(n) else EUint64(n)
  }

  /** Fraction digits kept while the significand is still accumulated as an integer of at most 53 bits,
      then up to 17 digits in all. */
  function KeptDigits(n: nat, significant: nat, ds: Text): (k: nat)
    requires AllDigits(ds)
    ensures k <= |ds|
    decreases |ds|
  {
    if ds == [] then 0
    else if n > 0x1F_FFFF_FFFF_FFFF then
      (if significant >= 17 then 0 else if |ds| < 17 - significant then |ds| else 17 - significant)
    else
      var m := n * 10 + (ds[0] - ZERO);
      1 + KeptDigits(m, if m != 0 then significant + 1 else significant, ds[1..])
  }

  /** expFrac, negated: how many fraction digits enter the significand. */
  function FractionScale(minus: bool, ds: Text, fraction: Text): nat
    requires AllDigits(ds) && AllDigits(fraction)
  {
    if FitsInteger(minus, Numeral(ds)) then KeptDigits(Numeral(ds), if ds == [] then 0 else |ds| - 1, fraction) else 0
  }

  /** Where ParseNumber stands after the integer part: it began at `start`, read `digits`, or a NaN or Infinity word. */
  datatype IntegerPart = IntegerPart(start: nat, minus: bool, digits: Text, nan: bool)

  function NumberEventAt(f: Flags, t: Text, part: IntegerPart, end: nat, integral: bool): Event
    requires part.start <= end <= |t| && AllDigits(part.digits)
  {
    var lexeme := t[part.start..end];
    if f.numbersAsStrings then ERawNumber(lexeme)
    else if integral && !part.nan && FitsInteger(part.minus, Numeral(part.digits)) then
         IntegerEvent(part.minus, Numeral(part.digits))
    else EDouble(lexeme)
  }

  const LETTER_E: Byte := 0x65
  const CAPITAL_E: Byte := 0x45

  predicate IsExponentMark(c: Byte) {
    c == LETTER_E || c == CAPITAL_E
  }

  /** From `q`, after the integer part and a fraction that adds `scale` digits to the significand. */
  function ScanExponent(f: Flags, t: Text, part: IntegerPart, q: nat, integral: bool, scale: nat): (r: Scan<Event>)
    requires part.start < q <= |t| && AllDigits(part.digits)
    ensures r.Got? ==> q <= r.pos <= |t|
  {
    if !IsExponentMark(Peek(t, q)) then Got(q, NumberEventAt(f, t, part, q, integral))
    else
      var signed := Peek(t, q + 1) == PLUS || Peek(t, q + 1) == MINUS;
      var u := if signed then q + 2 else q + 1;
      if !IsDigit(Peek(t, u)) then Bad(NumberMissExponent, u)
      else
        var v := DigitsEnd(t, u);
        if Peek(t, q + 1) != MINUS && Numeral(t[u..v]) > 308 + scale then Bad(NumberTooBig, part.start)
        else Got(v, NumberEventAt(f, t, part, v, false))
  }

  /** From `q`, after the integer part. */
  function ScanFraction(f: Flags, t: Text, part: IntegerPart, q: nat): (r: Scan<Event>)
    requires part.start < q <= |t| && AllDigits(part.digits)
    ensures r.Got? ==> q <= r.pos <= |t|
  {
    if IntegerTooBig(f.arithmetic, part.minus, part.digits) then Bad(NumberTooBig, part.start)
    else if Peek(t, q) != DOT then ScanExponent(f, t, part, q, true, 0)
    else if !IsDigit(Peek(t, q + 1)) then Bad(NumberMissFraction, q + 1)
    else
      var r := DigitsEnd(t, q + 1);
      ScanExponent(f, t, part, r, false, FractionScale(part.minus, part.digits, t[q + 1..r]))
  }

  const NAN_WORD: Text := [0x4E, 0x61, 0x4E]
  const INF_WORD: Text := [0x49, 0x6E, 0x66]
  const INITY_WORD: Text := [0x69, 0x6E, 0x69, 0x74, 0x79]

  /** The NaN and Infinity words. What the first Consume chain took stays taken when the second one starts. */
  function ScanNanOrInf(t: Text, q: nat): (r: Scan<()>)
    ensures r.Got? ==> q < r.pos <= |t|
  {
    var m := Matched(t, q, NAN_WORD);
    if m == 3 then Got(q + 3, ())
    else
      var i := Matched(t, q + m, INF_WORD);
      if i != 3 then Bad(ValueInvalid, q + m + i)
      else if Peek(t, q + m + 3) != INITY_WORD[0] then Got(q + m + 3, ())
      else
        var y := Matched(t, q + m + 3, INITY_WORD);
        if y == 5 then Got(q + m + 8, ()) else Bad(ValueInvalid, q + m + 3 + y)
  }

  function ScanNumber(f: Flags, t: Text, p: nat): (r: Scan<Event>)
    requires p <= |t|
    ensures r.Got? ==> p < r.pos <= |t|
  {
    var minus := Peek(t, p) == MINUS;
    var q := if minus then p + 1 else p;
    var c := Peek(t, q);
    if c == ZERO then ScanFraction(f, t, IntegerPart(p, minus, [ZERO], false), q + 1)
    else if IsDigit(c) then
      var r := DigitsEnd(t, q);
      ScanFraction(f, t, IntegerPart(p, minus, t[q..r], false), r)
    else if f.nanAndInf && (c == INF_WORD[0] || c == NAN_WORD[0]) then
      var w := ScanNanOrInf(t, q);
      if w.Bad? then Bad(w.code, w.offset) else ScanFraction(f, t, IntegerPart(p, minus, [], true), w.pos)
    else Bad(ValueInvalid, q)
  }
}
