/** kParseNumbersAsStringsFlag: it changes what is reported of a number, and nothing else. */
module RawNumbers {
  import opened Bytes
  import opened Json
  import opened Scanner
  import opened Recursive
  import Utf8

  /** The characters a number was read from: a zero reported as signed is the one written -0. */
  function Characters(e: Event): Text
    requires IsNumber(e)
  {
    if e.EDouble? then e.lexeme
    else
      var n := IntegerOf(e);
      (if n < 0 || e == EInt(0) then [MINUS] else []) + Decimal(Magnitude(n))
  }

  predicate IsNumber(e: Event) {
    e.EInt? || e.EUint? || e.EInt64? || e.EUint64? || e.EDouble?
  }

  function RawEvent(e: Event): Event {
    if IsNumber(e) then ERawNumber(Characters(e)) else e
  }

  function RawLog(log: seq<Event>): (r: seq<Event>)
    ensures |r| == |log| && forall i :: 0 <= i < |log| ==> r[i] == RawEvent(log[i])
  {
    seq(|log|, i requires 0 <= i < |log| => RawEvent(log[i]))
  }

  function RawOutcome(r: Outcome): Outcome {
    match r
    case Ok(pos, log) => Ok(pos, RawLog(log))
    case Err(code, offset, log) => Err(code, offset, RawLog(log))
  }

  function Raw(f: Flags): Flags {
    f.(numbersAsStrings := true)
  }

  lemma RawAppend(log: seq<Event>, e: Event)
    ensures RawLog(log + [e]) == RawLog(log) + [RawEvent(e)]
  {
    hide RawEvent;
  }

  // ---- Numbers ----

  /** What the integer part of a number is when its scan goes on at `q`. */
  predicate Standing(t: Text, part: IntegerPart, q: nat) {
    && part.start < q <= |t| && AllDigits(part.digits)
    && (!part.nan ==>
          && part.digits != [] && (|part.digits| > 1 ==> part.digits[0] != ZERO)
          && t[part.start..q] == (if part.minus then [MINUS] else []) + part.digits)
  }

  lemma IntegerCharacters(minus: bool, ds: Text)
    requires AllDigits(ds) && ds != [] && (|ds| > 1 ==> ds[0] != ZERO) && FitsInteger(minus, Numeral(ds))
    ensures var e := IntegerEvent(minus, Numeral(ds));
            IsNumber(e) && Characters(e) == (if minus then [MINUS] else []) + ds
  {
    hide Decimal, Numeral;
    NumeralCanonical(ds);
  }

  lemma NumberRaw(f: Flags, t: Text, part: IntegerPart, end: nat, integral: bool)
    requires !f.numbersAsStrings && part.start <= end <= |t| && AllDigits(part.digits)
    requires integral && !part.nan ==> Standing(t, part, end)
    ensures NumberEventAt(Raw(f), t, part, end, integral) == RawEvent(NumberEventAt(f, t, part, end, integral))
  {
    hide Decimal, Numeral, IntegerEvent, Characters;
    var e := NumberEventAt(f, t, part, end, integral);
    if integral && !part.nan && FitsInteger(part.minus, Numeral(part.digits)) {
      IntegerCharacters(part.minus, part.digits);
    } else {
      DoubleCharacters(t[part.start..end]);
    }
  }

  lemma DoubleCharacters(lexeme: Text)
    ensures IsNumber(EDouble(lexeme)) && Characters(EDouble(lexeme)) == lexeme
  {
  }

  function RawScan(r: Scan<Event>): Scan<Event> {
    match r
    case Got(pos, e) => Got(pos, RawEvent(e))
    case Bad(code, offset) => Bad(code, offset)
  }

  lemma ExponentRaw(f: Flags, t: Text, part: IntegerPart, q: nat, integral: bool, scale: nat)
    requires !f.numbersAsStrings && part.start < q <= |t| && AllDigits(part.digits)
    requires integral && !part.nan ==> Standing(t, part, q)
    ensures ScanExponent(Raw(f), t, part, q, integral, scale) == RawScan(ScanExponent(f, t, part, q, integral, scale))
  {
    hide NumberEventAt, Numeral, RawEvent, Standing;
    var r := ScanExponent(f, t, part, q, integral, scale);
    if r.Got? {
      if IsExponentMark(Peek(t, q)) {
        NumberRaw(f, t, part, r.pos, false);
      } else {
        NumberRaw(f, t, part, q, integral);
      }
    }
  }

  lemma FractionRaw(f: Flags, t: Text, part: IntegerPart, q: nat)
    requires !f.numbersAsStrings && Standing(t, part, q)
    ensures ScanFraction(Raw(f), t, part, q) == RawScan(ScanFraction(f, t, part, q))
  {
    hide ScanExponent, IntegerTooBig, FractionScale, RawEvent;
    if Peek(t, q) != DOT {
      ExponentRaw(f, t, part, q, true, 0);
    } else if IsDigit(Peek(t, q + 1)) {
      var r := DigitsEnd(t, q + 1);
      ExponentRaw(f, t, part, r, false, FractionScale(part.minus, part.digits, t[q + 1..r]));
    }
  }

  lemma ScanNumberRaw(f: Flags, t: Text, p: nat)
    requires !f.numbersAsStrings && p <= |t|
    ensures ScanNumber(Raw(f), t, p) == RawScan(ScanNumber(f, t, p))
  {
    hide ScanFraction, RawEvent, ScanNanOrInf, DigitsEnd;
    var minus := Peek(t, p) == MINUS;
    var q := if minus then p + 1 else p;
    var c := Peek(t, q);
    if c == ZERO {
      assert t[p..q + 1] == (if minus then [MINUS] else []) + [ZERO];
      FractionRaw(f, t, IntegerPart(p, minus, [ZERO], false), q + 1);
    } else if IsDigit(c) {
      var r := DigitsEnd(t, q);
      assert t[p..r] == (if minus then [MINUS] else []) + t[q..r];
      FractionRaw(f, t, IntegerPart(p, minus, t[q..r], false), r);
    } else if f.nanAndInf && (c == INF_WORD[0] || c == NAN_WORD[0]) && ScanNanOrInf(t, q).Got? {
      FractionRaw(f, t, IntegerPart(p, minus, [], true), ScanNanOrInf(t, q).pos);
    }
  }

  // ---- Strings and blanks ----

  lemma {:induction false} ScanStringRaw(f: Flags, t: Text, p: nat, acc: Text)
    ensures ScanString(Raw(f), t, p, acc) == ScanString(f, t, p, acc)
    decreases |t| - p
  {
    if Peek(t, p) != QUOTE {
      CharRaw(f, t, p);
      hide ScanChar;
      var c := ScanChar(f, t, p);
      if c.Got? {
        ScanStringRaw(f, t, c.pos, acc + c.value);
      }
    }
  }

  lemma CharRaw(f: Flags, t: Text, p: nat)
    requires Peek(t, p) != QUOTE
    ensures ScanChar(Raw(f), t, p) == ScanChar(f, t, p)
  {
    hide Utf8.Validate, ScanUnicode, Utf8.Encode, Unescape;
  }

  // ---- Values ----

  lemma StringRaw(f: Flags, t: Text, p: nat, log: seq<Event>, isKey: bool)
    requires Peek(t, p) == QUOTE
    ensures ParseString(Raw(f), t, p, RawLog(log), isKey) == RawOutcome(ParseString(f, t, p, log, isKey))
  {
    hide ScanString;
    ScanStringRaw(f, t, p + 1, []);
    var r := ScanString(f, t, p + 1, []);
    if r.Got? {
      RawAppend(log, if isKey then EKey(r.value) else EString(r.value));
    }
  }

  lemma BlanksRaw(f: Flags, t: Text, p: nat, log: seq<Event>)
    requires p <= |t|
    ensures Blanks(Raw(f), t, p, RawLog(log)) == RawOutcome(Blanks(f, t, p, log))
  {
    hide SkipComments, SkipSpaces;
  }

  lemma ScalarRaw(f: Flags, t: Text, p: nat, log: seq<Event>)
    requires !f.numbersAsStrings && p <= |t|
    ensures ParseScalar(Raw(f), t, p, RawLog(log)) == RawOutcome(ParseScalar(f, t, p, log))
  {
    hide ParseString, ScanNumber, ScanWord, RawEvent;
    RawAppend(log, ENull);
    RawAppend(log, EBool(true));
    RawAppend(log, EBool(false));
    assert RawEvent(ENull) == ENull && forall b :: RawEvent(EBool(b)) == EBool(b) by { OthersKept(); }
    if Peek(t, p) == QUOTE {
      StringRaw(f, t, p, log, false);
    } else {
      ScanNumberRaw(f, t, p);
      var r := ScanNumber(f, t, p);
      if r.Got? {
        RawAppend(log, r.value);
      }
    }
  }

  lemma OthersKept()
    ensures RawEvent(ENull) == ENull && forall b :: RawEvent(EBool(b)) == EBool(b)
    ensures RawEvent(EStartObject) == EStartObject && RawEvent(EStartArray) == EStartArray
    ensures forall n :: RawEvent(EEndObject(n)) == EEndObject(n) && RawEvent(EEndArray(n)) == EEndArray(n)
  {
  }

  lemma {:induction false} ValueRaw(f: Flags, t: Text, p: nat, log: seq<Event>)
    requires !f.numbersAsStrings && p <= |t|
    ensures ParseValue(Raw(f), t, p, RawLog(log)) == RawOutcome(ParseValue(f, t, p, log))
    decreases |t| - p, 1
  {
    hide ParseScalar, ParseObject, ParseArray, RawOutcome;
    if Peek(t, p) == LBRACE {
      ObjectRaw(f, t, p, log);
    } else if Peek(t, p) == LBRACKET {
      ArrayRaw(f, t, p, log);
    } else {
      ScalarRaw(f, t, p, log);
    }
  }

  lemma {:induction false} ObjectRaw(f: Flags, t: Text, p: nat, log: seq<Event>)
    requires !f.numbersAsStrings && Peek(t, p) == LBRACE
    ensures ParseObject(Raw(f), t, p, RawLog(log)) == RawOutcome(ParseObject(f, t, p, log))
    decreases |t| - p, 0
  {
    hide ParseMembers, Blanks, RawEvent;
    OthersKept();
    var start := log + [EStartObject];
    RawAppend(log, EStartObject);
    RawAppend(start, EEndObject(0));
    BlanksRaw(f, t, p + 1, start);
    var b := Blanks(f, t, p + 1, start);
    if b.Ok? {
      MembersRaw(f, t, b.pos, start, 0);
    }
  }

  lemma {:induction false} MembersRaw(f: Flags, t: Text, p: nat, log: seq<Event>, count: nat)
    requires !f.numbersAsStrings && p <= |t|
    ensures ParseMembers(Raw(f), t, p, RawLog(log), count) == RawOutcome(ParseMembers(f, t, p, log, count))
    decreases |t| - p, 2
  {
    hide ParseString, ParseMemberValue, Blanks, RawLog;
    if Peek(t, p) == QUOTE {
      StringRaw(f, t, p, log, true);
      var k := ParseString(f, t, p, log, true);
      if k.Ok? {
        BlanksRaw(f, t, k.pos, k.log);
        var a := Blanks(f, t, k.pos, k.log);
        if a.Ok? && Peek(t, a.pos) == COLON {
          MemberValueRaw(f, t, a.pos + 1, a.log, count);
        }
      }
    }
  }

  lemma {:induction false} MemberValueRaw(f: Flags, t: Text, p: nat, log: seq<Event>, count: nat)
    requires !f.numbersAsStrings && p <= |t|
    ensures ParseMemberValue(Raw(f), t, p, RawLog(log), count) == RawOutcome(ParseMemberValue(f, t, p, log, count))
    decreases |t| - p, 3
  {
    hide ParseValue, ParseMembersTail, Blanks, RawLog;
    BlanksRaw(f, t, p, log);
    var a := Blanks(f, t, p, log);
    if a.Ok? {
      ValueRaw(f, t, a.pos, a.log);
      var v := ParseValue(f, t, a.pos, a.log);
      if v.Ok? {
        BlanksRaw(f, t, v.pos, v.log);
        var b := Blanks(f, t, v.pos, v.log);
        if b.Ok? {
          MembersTailRaw(f, t, b.pos, b.log, count + 1);
        }
      }
    }
  }

  lemma {:induction false} MembersTailRaw(f: Flags, t: Text, p: nat, log: seq<Event>, count: nat)
    requires !f.numbersAsStrings && p <= |t|
    ensures ParseMembersTail(Raw(f), t, p, RawLog(log), count) == RawOutcome(ParseMembersTail(f, t, p, log, count))
    decreases |t| - p, 2
  {
    hide ParseMembers, Blanks, RawEvent;
    OthersKept();
    RawAppend(log, EEndObject(count));
    if Peek(t, p) == COMMA {
      BlanksRaw(f, t, p + 1, log);
      var b := Blanks(f, t, p + 1, log);
      if b.Ok? {
        MembersRaw(f, t, b.pos, log, count);
      }
    }
  }

  lemma {:induction false} ArrayRaw(f: Flags, t: Text, p: nat, log: seq<Event>)
    requires !f.numbersAsStrings && Peek(t, p) == LBRACKET
    ensures ParseArray(Raw(f), t, p, RawLog(log)) == RawOutcome(ParseArray(f, t, p, log))
    decreases |t| - p, 0
  {
    hide ParseElements, Blanks, RawEvent;
    OthersKept();
    var start := log + [EStartArray];
    RawAppend(log, EStartArray);
    RawAppend(start, EEndArray(0));
    BlanksRaw(f, t, p + 1, start);
    var b := Blanks(f, t, p + 1, start);
    if b.Ok? {
      ElementsRaw(f, t, b.pos, start, 0);
    }
  }

  lemma {:induction false} ElementsRaw(f: Flags, t: Text, p: nat, log: seq<Event>, count: nat)
    requires !f.numbersAsStrings && p <= |t|
    ensures ParseElements(Raw(f), t, p, RawLog(log), count) == RawOutcome(ParseElements(f, t, p, log, count))
    decreases |t| - p, 2
  {
    hide ParseValue, ParseElementsTail, Blanks, RawLog;
    ValueRaw(f, t, p, log);
    var v := ParseValue(f, t, p, log);
    if v.Ok? {
      BlanksRaw(f, t, v.pos, v.log);
      var b := Blanks(f, t, v.pos, v.log);
      if b.Ok? {
        ElementsTailRaw(f, t, b.pos, b.log, count + 1);
      }
    }
  }

  lemma {:induction false} ElementsTailRaw(f: Flags, t: Text, p: nat, log: seq<Event>, count: nat)
    requires !f.numbersAsStrings && p <= |t|
    ensures ParseElementsTail(Raw(f), t, p, RawLog(log), count) == RawOutcome(ParseElementsTail(f, t, p, log, count))
    decreases |t| - p, 2
  {
    hide ParseElements, Blanks, RawEvent;
    OthersKept();
    RawAppend(log, EEndArray(count));
    if Peek(t, p) == COMMA {
      BlanksRaw(f, t, p + 1, log);
      var b := Blanks(f, t, p + 1, log);
      if b.Ok? {
        ElementsRaw(f, t, b.pos, log, count);
      }
    }
  }

  /** For every text and all other flags: the same verdict, position and error, and the same events, except that every
      number is reported as the characters it was read from. */
  lemma RawRun(f: Flags, t: Text)
    requires !f.numbersAsStrings
    ensures Parse(Raw(f), t) == RawOutcome(Parse(f, t))
  {
    hide ParseValue, Blanks, RawEvent;
    BlanksRaw(f, t, 0, []);
    assert RawLog([]) == [];
    var b := Blanks(f, t, 0, []);
    if b.Ok? && Peek(t, b.pos) != NUL {
      ValueRaw(f, t, b.pos, []);
      var v := ParseValue(f, t, b.pos, []);
      if v.Ok? && !f.stopWhenDone {
        BlanksRaw(f, t, v.pos, v.log);
      }
    }
  }
}
