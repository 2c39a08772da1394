/** The JSON grammar of RFC 8259 sections 2 to 7 as concrete syntax trees, their text and what they denote. */
module Grammar {
  import opened Bytes
  import opened Json
  import opened Scanner
  import Utf8

  /** ws of section 2. */
  predicate IsBlank(s: Text) {
    forall i :: 0 <= i < |s| ==> IsSpace(s[i])
  }

  // ---- Strings, section 7 ----

  /** One char: a literal byte, a two-character escape, a \u escape, or the two \u escapes of a surrogate pair. */
  datatype Char =
    | Literal(b: Byte)
    | Escape(e: Byte)
    | Unicode(hex: Text)
    | Surrogates(lead: Text, trail: Text)

  predicate IsHex4(s: Text) {
    |s| == 4 && IsHex(s[0]) && IsHex(s[1]) && IsHex(s[2]) && IsHex(s[3])
  }

  function CodeUnit(s: Text): (n: nat)
    requires IsHex4(s)
    ensures n <= 0xFFFF
  {
    ((HexValue(s[0]) * 16 + HexValue(s[1])) * 16 + HexValue(s[2])) * 16 + HexValue(s[3])
  }

  predicate ValidChar(c: Char) {
    match c
    case Literal(b) => b >= 0x20 && b != QUOTE && b != BACKSLASH
    case Escape(e) => Unescape(e) != NUL
    case Unicode(hex) => IsHex4(hex)
    case Surrogates(lead, trail) =>
      && IsHex4(lead) && 0xD800 <= CodeUnit(lead) <= 0xDBFF
      && IsHex4(trail) && 0xDC00 <= CodeUnit(trail) <= 0xDFFF
  }

  function CharText(c: Char): (s: Text)
    ensures s != []
  {
    match c
    case Literal(b) => [b]
    case Escape(e) => [BACKSLASH, e]
    case Unicode(hex) => [BACKSLASH, LETTER_U] + hex
    case Surrogates(lead, trail) => [BACKSLASH, LETTER_U] + lead + [BACKSLASH, LETTER_U] + trail
  }

  /** The bytes a char stands for in the decoded string. */
  function CharValue(c: Char): Text
    requires ValidChar(c)
  {
    match c
    case Literal(b) => [b]
    case Escape(e) => [Unescape(e)]
    case Unicode(hex) => Utf8.Encode(CodeUnit(hex))
    case Surrogates(lead, trail) =>
      Utf8.Encode((CodeUnit(lead) - 0xD800) * 0x400 + (CodeUnit(trail) - 0xDC00) + 0x10000)
  }

  /** A \u escape of a leading surrogate on its own. */
  predicate IsLead(c: Char) {
    c.Unicode? && IsHex4(c.hex) && 0xD800 <= CodeUnit(c.hex) <= 0xDBFF
  }

  /** A \u escape of a trailing surrogate on its own. */
  predicate IsTrail(c: Char) {
    c.Unicode? && IsHex4(c.hex) && 0xDC00 <= CodeUnit(c.hex) <= 0xDFFF
  }

  /** A leading and a trailing surrogate in a row are a pair, so a text has one reading only. */
  predicate ValidChars(cs: seq<Char>) {
    && (forall i :: 0 <= i < |cs| ==> ValidChar(cs[i]))
    && (forall i :: 0 < i < |cs| ==> !(IsLead(cs[i - 1]) && IsTrail(cs[i])))
  }

  /** The text behind the opening quote, closing quote included. */
  function CharsText(cs: seq<Char>): (s: Text)
    ensures s != []
  {
    if cs == [] then [QUOTE] else CharText(cs[0]) + CharsText(cs[1..])
  }

  /** The decoded string, put behind `acc`. */
  function CharsValue(cs: seq<Char>, acc: Text): Text
    requires ValidChars(cs)
  {
    if cs == [] then acc else CharsValue(cs[1..], acc + CharValue(cs[0]))
  }

  // ---- Numbers, section 6 ----

  datatype Exponent = NoExponent | Exponent(mark: Byte, sign: Text, digits: Text)

  /** `fraction` holds the digits behind the decimal point, none if there is no point. */
  datatype Numeric = Numeric(minus: bool, integer: Text, fraction: Text, exponent: Exponent)

  predicate ValidNumeric(n: Numeric) {
    && AllDigits(n.integer) && n.integer != [] && (|n.integer| > 1 ==> n.integer[0] != ZERO)
    && AllDigits(n.fraction)
    && (n.exponent.Exponent? ==>
          && IsExponentMark(n.exponent.mark)
          && (n.exponent.sign == [] || n.exponent.sign == [PLUS] || n.exponent.sign == [MINUS])
          && AllDigits(n.exponent.digits) && n.exponent.digits != [])
  }

  function ExponentText(e: Exponent): Text {
    match e
    case NoExponent => []
    case Exponent(mark, sign, digits) => [mark] + (sign + digits)
  }

  function FractionText(fraction: Text): Text {
    if fraction == [] then [] else [DOT] + fraction
  }

  function SignText(minus: bool): Text {
    if minus then [MINUS] else []
  }

  function NumericText(n: Numeric): Text {
    SignText(n.minus) + (n.integer + (FractionText(n.fraction) + ExponentText(n.exponent)))
  }

  predicate IsInteger(n: Numeric) {
    n.fraction == [] && n.exponent.NoExponent?
  }

  /** The DOM value: an integer when written as one and inside the 64-bit range of its sign, else a double. */
  function NumericValue(n: Numeric): JSON
    requires ValidNumeric(n)
  {
    if IsInteger(n) && FitsInteger(n.minus, Numeral(n.integer))
    then Number(if n.minus then 0 - Numeral(n.integer) else Numeral(n.integer))
    else Real(NumericText(n))
  }

  function NumericEvent(n: Numeric): Event
    requires ValidNumeric(n)
  {
    if IsInteger(n) && FitsInteger(n.minus, Numeral(n.integer)) then IntegerEvent(n.minus, Numeral(n.integer))
    else EDouble(NumericText(n))
  }

  // ---- Values, sections 3 to 5 ----

  datatype Tree =
    | NullWord | TrueWord | FalseWord
    | Num(n: Numeric)
    | Str(chars: seq<Char>)
    | EmptyArray(blank: Text)
    | Arr(blank: Text, items: Items)
    | EmptyObject(blank: Text)
    | Obj(blank: Text, pairs: Pairs)

  /** The elements of a non-empty array; `after` stands behind the value, `before` behind the comma. A last element or
      member with a `comma`, the blanks behind it, is what kParseTrailingCommasFlag adds to RFC 8259. */
  datatype Items =
    | LastItem(value: Tree, after: Text, comma: Option<Text>)
    | MoreItems(value: Tree, after: Text, before: Text, rest: Items)

  /** A member: name, blanks around the colon, value. */
  datatype Pair = Pair(name: seq<Char>, colonBefore: Text, colonAfter: Text, value: Tree, after: Text)

  datatype Pairs =
    | LastPair(pair: Pair, comma: Option<Text>)
    | MorePairs(pair: Pair, before: Text, rest: Pairs)

  predicate ValidTree(v: Tree) {
    match v
    case NullWord => true
    case TrueWord => true
    case FalseWord => true
    case Num(n) => ValidNumeric(n)
    case Str(cs) => ValidChars(cs)
    case EmptyArray(blank) => IsBlank(blank)
    case Arr(blank, items) => IsBlank(blank) && ValidItems(items)
    case EmptyObject(blank) => IsBlank(blank)
    case Obj(blank, pairs) => IsBlank(blank) && ValidPairs(pairs)
  }

  predicate ValidItems(items: Items) {
    && ValidTree(items.value) && IsBlank(items.after)
    && (items.MoreItems? ==> IsBlank(items.before) && ValidItems(items.rest))
    && (items.LastItem? && items.comma.Some? ==> IsBlank(items.comma.value))
  }

  predicate ValidPairs(pairs: Pairs) {
    var m := pairs.pair;
    && ValidChars(m.name) && IsBlank(m.colonBefore) && IsBlank(m.colonAfter) && ValidTree(m.value) && IsBlank(m.after)
    && (pairs.MorePairs? ==> IsBlank(pairs.before) && ValidPairs(pairs.rest))
    && (pairs.LastPair? && pairs.comma.Some? ==> IsBlank(pairs.comma.value))
  }

  function TreeText(v: Tree): (s: Text)
  {
    match v
    case NullWord => NULL_WORD
    case TrueWord => TRUE_WORD
    case FalseWord => FALSE_WORD
    case Num(n) => NumericText(n)
    case Str(cs) => [QUOTE] + CharsText(cs)
    case EmptyArray(blank) => [LBRACKET] + (blank + [RBRACKET])
    case Arr(blank, items) => [LBRACKET] + (blank + ItemsText(items))
    case EmptyObject(blank) => [LBRACE] + (blank + [RBRACE])
    case Obj(blank, pairs) => [LBRACE] + (blank + PairsText(pairs))
  }

  /** The closing bracket, behind a trailing comma if there is one. */
  function ClosingText(comma: Option<Text>, bracket: Byte): (s: Text)
    ensures s != []
  {
    if comma.None? then [bracket] else [COMMA] + (comma.value + [bracket])
  }

  /** From the first element to the closing bracket. */
  function ItemsText(items: Items): Text {
    TreeText(items.value) + (items.after +
      match items
      case LastItem(_, _, comma) => ClosingText(comma, RBRACKET)
      case MoreItems(_, _, before, rest) => [COMMA] + (before + ItemsText(rest)))
  }

  function PairText(m: Pair): Text {
    [QUOTE] + (CharsText(m.name) + (m.colonBefore + ([COLON] + (m.colonAfter + (TreeText(m.value) + m.after)))))
  }

  /** From the first member to the closing bracket. */
  function PairsText(pairs: Pairs): Text {
    PairText(pairs.pair) +
      match pairs
      case LastPair(_, comma) => ClosingText(comma, RBRACE)
      case MorePairs(_, before, rest) => [COMMA] + (before + PairsText(rest))
  }

  /** The value a tree denotes. */
  function TreeValue(v: Tree): JSON
    requires ValidTree(v)
  {
    match v
    case NullWord => JSON.Null
    case TrueWord => JSON.Bool(true)
    case FalseWord => JSON.Bool(false)
    case Num(n) => NumericValue(n)
    case Str(cs) => JSON.String(CharsValue(cs, []))
    case EmptyArray(_) => JSON.Array([])
    case Arr(_, items) => JSON.Array(ItemValues(items))
    case EmptyObject(_) => JSON.Object([])
    case Obj(_, pairs) => JSON.Object(PairValues(pairs))
  }

  function ItemValues(items: Items): seq<JSON>
    requires ValidItems(items)
  {
    [TreeValue(items.value)] + if items.MoreItems? then ItemValues(items.rest) else []
  }

  function PairValues(pairs: Pairs): seq<Member>
    requires ValidPairs(pairs)
  {
    [Member(CharsValue(pairs.pair.name, []), TreeValue(pairs.pair.value))] +
      if pairs.MorePairs? then PairValues(pairs.rest) else []
  }

  /** The reader's events for a tree, sent behind `log`. */
  function TreeLog(v: Tree, log: seq<Event>): seq<Event>
    requires ValidTree(v)
  {
    match v
    case NullWord => log + [ENull]
    case TrueWord => log + [EBool(true)]
    case FalseWord => log + [EBool(false)]
    case Num(n) => log + [NumericEvent(n)]
    case Str(cs) => log + [EString(CharsValue(cs, []))]
    case EmptyArray(_) => log + [EStartArray] + [EEndArray(0)]
    case Arr(_, items) => ItemsLog(items, log + [EStartArray], 0)
    case EmptyObject(_) => log + [EStartObject] + [EEndObject(0)]
    case Obj(_, pairs) => PairsLog(pairs, log + [EStartObject], 0)
  }

  function ItemsLog(items: Items, log: seq<Event>, count: nat): seq<Event>
    requires ValidItems(items)
  {
    var log := TreeLog(items.value, log);
    match items
    case LastItem(_, _, _) => log + [EEndArray(count + 1)]
    case MoreItems(_, _, _, rest) => ItemsLog(rest, log, count + 1)
  }

  function PairsLog(pairs: Pairs, log: seq<Event>, count: nat): seq<Event>
    requires ValidPairs(pairs)
  {
    var log := TreeLog(pairs.pair.value, log + [EKey(CharsValue(pairs.pair.name, []))]);
    match pairs
    case LastPair(_, _) => log + [EEndObject(count + 1)]
    case MorePairs(_, _, rest) => PairsLog(rest, log, count + 1)
  }

  /** A JSON text: a value between blanks. */
  datatype Document = Document(before: Text, root: Tree, after: Text)

  predicate ValidDocument(d: Document) {
    IsBlank(d.before) && ValidTree(d.root) && IsBlank(d.after)
  }

  function DocumentText(d: Document): Text {
    d.before + (TreeText(d.root) + d.after)
  }

  // ---- Trailing commas ----

  /** The tree is one of RFC 8259, or the flag allows its trailing commas. */
  predicate CommasAllowed(f: Flags, v: Tree) {
    match v
    case Arr(_, items) => ItemCommasAllowed(f, items)
    case Obj(_, pairs) => PairCommasAllowed(f, pairs)
    case _ => true
  }

  predicate ItemCommasAllowed(f: Flags, items: Items) {
    CommasAllowed(f, items.value) &&
    match items
    case LastItem(_, _, comma) => comma.None? || f.trailingCommas
    case MoreItems(_, _, _, rest) => ItemCommasAllowed(f, rest)
  }

  predicate PairCommasAllowed(f: Flags, pairs: Pairs) {
    CommasAllowed(f, pairs.pair.value) &&
    match pairs
    case LastPair(_, comma) => comma.None? || f.trailingCommas
    case MorePairs(_, _, rest) => PairCommasAllowed(f, rest)
  }

  // ---- What the reader does not take ----

  /** The numeral is not refused with NumberTooBig: no integer part so long that the double reaches its limit, and no
      positive exponent above 308 plus the fraction digits that entered the significand. */
  predicate NumericTaken(f: Flags, n: Numeric)
    requires ValidNumeric(n)
  {
    && !IntegerTooBig(f.arithmetic, n.minus, n.integer)
    && (n.exponent.Exponent? && n.exponent.sign != [MINUS] ==>
          Numeral(n.exponent.digits) <= 308 + FractionScale(n.minus, n.integer, n.fraction))
  }

  /** Every leading surrogate is one of a pair. */
  predicate LeadsPaired(cs: seq<Char>) {
    forall i :: 0 <= i < |cs| ==> !IsLead(cs[i])
  }

  /** With kParseValidateEncodingFlag, the text of a string has to be UTF-8 as well. */
  predicate CharsTaken(f: Flags, cs: seq<Char>) {
    LeadsPaired(cs) && (f.validateEncoding ==> Utf8.IsUtf8(CharsText(cs)))
  }

  /** All numerals and strings of the tree are taken. */
  predicate TreeTaken(f: Flags, v: Tree)
    requires ValidTree(v)
  {
    match v
    case Num(n) => NumericTaken(f, n)
    case Str(cs) => CharsTaken(f, cs)
    case Arr(_, items) => ItemsTaken(f, items)
    case Obj(_, pairs) => PairsTaken(f, pairs)
    case _ => true
  }

  predicate ItemsTaken(f: Flags, items: Items)
    requires ValidItems(items)
  {
    TreeTaken(f, items.value) && (items.MoreItems? ==> ItemsTaken(f, items.rest))
  }

  predicate PairsTaken(f: Flags, pairs: Pairs)
    requires ValidPairs(pairs)
  {
    CharsTaken(f, pairs.pair.name) && TreeTaken(f, pairs.pair.value) && (pairs.MorePairs? ==> PairsTaken(f, pairs.rest))
  }

  // ---- What the events mean ----

  lemma NumericEventMeaning(n: Numeric)
    requires ValidNumeric(n)
    ensures Events(NumericValue(n)) == [Canonical(NumericEvent(n))]
  {
    hide IntegerTooBig;
  }

  /** Up to the kinds of its integers, the reader's log for a tree is the event stream of the tree's value. */
  lemma {:induction false} TreeLogMeaning(v: Tree, log: seq<Event>)
    requires ValidTree(v)
    ensures CanonicalAll(TreeLog(v, log)) == CanonicalAll(log) + Events(TreeValue(v))
    decreases v
  {
    hide NumericEvent, NumericValue, CharsValue, CanonicalAll, NumberEvent, ElementEvents, MemberEvents, ValidNumeric,
         ValidChars;
    match v
    case NullWord => CanonicalAppend(log, ENull);
    case TrueWord => CanonicalAppend(log, EBool(true));
    case FalseWord => CanonicalAppend(log, EBool(false));
    case Num(n) =>
      NumericEventMeaning(n);
      CanonicalAppend(log, NumericEvent(n));
    case Str(cs) => CanonicalAppend(log, EString(CharsValue(cs, [])));
    case EmptyArray(_) => EmptyLogMeaning(log, EStartArray, EEndArray(0));
    case EmptyObject(_) => EmptyLogMeaning(log, EStartObject, EEndObject(0));
    case Arr(_, items) =>
      CanonicalAppend(log, EStartArray);
      ItemsLogMeaning(items, log + [EStartArray], 0);
      var es, end := ElementEvents(ItemValues(items)), [EEndArray(|ItemValues(items)|)];
      Assoc(CanonicalAll(log), [EStartArray], es);
      Assoc(CanonicalAll(log), [EStartArray] + es, end);
    case Obj(_, pairs) =>
      CanonicalAppend(log, EStartObject);
      PairsLogMeaning(pairs, log + [EStartObject], 0);
      var es, end := MemberEvents(PairValues(pairs)), [EEndObject(|PairValues(pairs)|)];
      Assoc(CanonicalAll(log), [EStartObject], es);
      Assoc(CanonicalAll(log), [EStartObject] + es, end);
  }

  lemma EmptyLogMeaning(log: seq<Event>, start: Event, end: Event)
    requires Canonical(start) == start && Canonical(end) == end
    ensures CanonicalAll(log + [start] + [end]) == CanonicalAll(log) + [start, end]
    ensures Events(JSON.Array([])) == [EStartArray, EEndArray(0)]
    ensures Events(JSON.Object([])) == [EStartObject, EEndObject(0)]
  {
    CanonicalAppend(log, start);
    CanonicalAppend(log + [start], end);
  }

  lemma {:induction false} ItemsLogMeaning(items: Items, log: seq<Event>, count: nat)
    requires ValidItems(items)
    ensures CanonicalAll(ItemsLog(items, log, count)) ==
            CanonicalAll(log) + ElementEvents(ItemValues(items)) + [EEndArray(count + |ItemValues(items)|)]
    decreases items
  {
    hide CanonicalAll, Events, ElementEvents, TreeLog, TreeValue;
    var log1, v := TreeLog(items.value, log), TreeValue(items.value);
    TreeLogMeaning(items.value, log);
    if items.MoreItems? {
      var vs := ItemValues(items.rest);
      ItemsLogMeaning(items.rest, log1, count + 1);
      ElementEventsCons(v, vs);
      Assoc(CanonicalAll(log), Events(v), ElementEvents(vs));
    } else {
      CanonicalAppend(log1, EEndArray(count + 1));
      assert ItemValues(items) == [v];
      OneElement(v);
    }
  }

  lemma OneElement(v: JSON)
    ensures ElementEvents([v]) == Events(v)
  {
    assert [v][1..] == [];
  }

  lemma OneMember(m: Member)
    ensures MemberEvents([m]) == [EKey(m.name)] + Events(m.value)
  {
    assert [m][1..] == [];
  }

  lemma {:induction false} PairsLogMeaning(pairs: Pairs, log: seq<Event>, count: nat)
    requires ValidPairs(pairs)
    ensures CanonicalAll(PairsLog(pairs, log, count)) ==
            CanonicalAll(log) + MemberEvents(PairValues(pairs)) + [EEndObject(count + |PairValues(pairs)|)]
    decreases pairs
  {
    hide CharsValue, CanonicalAll, Events, MemberEvents, TreeLog, TreeValue;
    var key, v := EKey(CharsValue(pairs.pair.name, [])), TreeValue(pairs.pair.value);
    var log1, m := TreeLog(pairs.pair.value, log + [key]), Member(CharsValue(pairs.pair.name, []), v);
    CanonicalAppend(log, key);
    TreeLogMeaning(pairs.pair.value, log + [key]);
    Assoc(CanonicalAll(log), [key], Events(v));
    if pairs.MorePairs? {
      var ms := PairValues(pairs.rest);
      PairsLogMeaning(pairs.rest, log1, count + 1);
      MemberEventsCons(m, ms);
      Assoc(CanonicalAll(log), [key] + Events(v), MemberEvents(ms));
    } else {
      CanonicalAppend(log1, EEndObject(count + 1));
      assert PairValues(pairs) == [m];
      OneMember(m);
    }
  }
}
