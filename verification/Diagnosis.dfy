/** What an error of the reader says about the text: every code is true of the place its offset names. */
module Diagnosis {
  import opened Bytes
  import opened Json
  import opened Scanner
  import opened Recursive
  import Discipline
  import Lenient
  import Utf8

  // ---- Where the log stands ----

  function Entered(nest: Nest, e: Event): Nest {
    match e
    case EStartObject => Within(false, nest)
    case EStartArray => Within(true, nest)
    case EEndObject(_) => Outside(nest)
    case EEndArray(_) => Outside(nest)
    case _ => nest
  }

  /** The containers begun and not yet ended. */
  function Around(log: seq<Event>): Nest
    decreases |log|
  {
    if log == [] then Outermost else Entered(Around(log[..|log| - 1]), log[|log| - 1])
  }

  lemma AroundAppend(log: seq<Event>, e: Event)
    ensures Around(log + [e]) == Entered(Around(log), e)
  {
    assert (log + [e])[..|log|] == log;
  }

  predicate InArray(log: seq<Event>) {
    Around(log).Within? && Around(log).inArray
  }

  predicate InObject(log: seq<Event>) {
    Around(log).Within? && !Around(log).inArray
  }

  predicate BehindKey(log: seq<Event>) {
    log != [] && log[|log| - 1].EKey?
  }

  predicate BehindStart(log: seq<Event>) {
    log != [] && (log[|log| - 1].EStartObject? || log[|log| - 1].EStartArray?)
  }

  predicate BehindValue(log: seq<Event>) {
    log != [] && !BehindKey(log) && !BehindStart(log)
  }

  /** A value is to come next. */
  predicate AwaitsValue(log: seq<Event>) {
    log == [] || BehindKey(log) || InArray(log)
  }

  // ---- What the codes say ----

  predicate EscapeMark(t: Text, p: nat) {
    Peek(t, p) == BACKSLASH && Peek(t, p + 1) == LETTER_U
  }

  predicate LeadAt(t: Text, p: nat) {
    HexAt(t, p) && 0xD800 <= Hex4(t, p) < 0xDC00
  }

  predicate TrailAt(t: Text, p: nat) {
    HexAt(t, p) && 0xDC00 <= Hex4(t, p) < 0xE000
  }

  predicate StringFault(f: Flags, t: Text, code: ErrorCode, p: nat) {
    match code
    case StringMissQuotationMark => Peek(t, p) == NUL
    case StringEscapeInvalid =>
      0 < Peek(t, p) < 0x20 ||
      (Peek(t, p) == BACKSLASH && Peek(t, p + 1) != LETTER_U && Unescape(Peek(t, p + 1)) == NUL)
    case StringUnicodeEscapeInvalidHex =>
      EscapeMark(t, p) && (!HexAt(t, p + 2) || (LeadAt(t, p + 2) && EscapeMark(t, p + 6) && !HexAt(t, p + 8)))
    case StringUnicodeSurrogateInvalid =>
      EscapeMark(t, p) && LeadAt(t, p + 2) &&
      (!EscapeMark(t, p + 6) || (HexAt(t, p + 8) && !TrailAt(t, p + 8)))
    case StringInvalidEncoding => f.validateEncoding && !Utf8.Decode(t, p).ok
    case _ => false
  }

  /** The text at `p` leaves the word there, behind at least one of its letters. */
  predicate LeavesWord(t: Text, p: nat, word: Text) {
    exists m :: 0 < m < |word| && m <= p && At(t, p - m, word[..m]) && Peek(t, p) != word[m]
  }

  predicate BeginsValue(c: Byte) {
    c == LBRACE || c == LBRACKET || c == QUOTE || c == MINUS || IsDigit(c) || c == NULL_WORD[0] || c == TRUE_WORD[0] ||
    c == FALSE_WORD[0]
  }

  predicate NumberFault(t: Text, code: ErrorCode, p: nat) {
    match code
    case NumberTooBig => Peek(t, p) == MINUS || IsDigit(Peek(t, p))
    case NumberMissFraction => 0 < p <= |t| && t[p - 1] == DOT && !IsDigit(Peek(t, p))
    case NumberMissExponent =>
      0 < p <= |t| && !IsDigit(Peek(t, p)) &&
      if IsExponentMark(t[p - 1]) then Peek(t, p) != PLUS && Peek(t, p) != MINUS
      else p > 1 && (t[p - 1] == PLUS || t[p - 1] == MINUS) && IsExponentMark(t[p - 2])
    case ValueInvalid =>
      LeavesWord(t, p, NULL_WORD) || LeavesWord(t, p, TRUE_WORD) || LeavesWord(t, p, FALSE_WORD) ||
      (!BeginsValue(Peek(t, p)) || (0 < p <= |t| && t[p - 1] == MINUS && !IsDigit(Peek(t, p))))
    case _ => false
  }

  predicate CommentFault(f: Flags, t: Text, code: ErrorCode, p: nat) {
    code == UnspecificSyntaxError && f.comments && 0 < p <= |t| &&
    (Peek(t, p) == NUL || (t[p - 1] == SLASH && Peek(t, p) != STAR && Peek(t, p) != SLASH))
  }

  /** The error, found behind the events of the log, is true of the text at its offset. NaN and Infinity words apart,
      which have their own rules. */
  predicate IsTrue(f: Flags, t: Text, code: ErrorCode, p: nat, log: seq<Event>) {
    match code
    case DocumentEmpty => log == [] && Peek(t, p) == NUL &&
      (!f.comments ==> forall i :: 0 <= i < p ==> IsSpace(Peek(t, i)))
    case DocumentRootNotSingular => Around(log).Outermost? && BehindValue(log) && Peek(t, p) != NUL &&
      !IsSpace(Peek(t, p))
    case ObjectMissName => InObject(log) && !BehindKey(log) && Peek(t, p) != QUOTE
    case ObjectMissColon => BehindKey(log) && Peek(t, p) != COLON
    case ObjectMissCommaOrCurlyBracket =>
      InObject(log) && BehindValue(log) && Peek(t, p) != COMMA && Peek(t, p) != RBRACE
    case ArrayMissCommaOrSquareBracket =>
      InArray(log) && BehindValue(log) && Peek(t, p) != COMMA && Peek(t, p) != RBRACKET
    case UnspecificSyntaxError => CommentFault(f, t, code, p)
    case StringMissQuotationMark => StringFault(f, t, code, p)
    case StringEscapeInvalid => StringFault(f, t, code, p)
    case StringUnicodeEscapeInvalidHex => StringFault(f, t, code, p)
    case StringUnicodeSurrogateInvalid => StringFault(f, t, code, p)
    case StringInvalidEncoding => StringFault(f, t, code, p)
    case _ => AwaitsValue(log) && (!f.nanAndInf ==> NumberFault(t, code, p))
  }

  // ---- Blanks ----

  lemma {:induction false} BlockFault(f: Flags, t: Text, p: nat)
    requires f.comments && 0 < p <= |t| && SkipBlock(t, p).Bad?
    ensures CommentFault(f, t, SkipBlock(t, p).code, SkipBlock(t, p).offset)
    decreases |t| - p
  {
    if Peek(t, p) != NUL {
      BlockFault(f, t, p + 1);
    }
  }

  lemma {:induction false} CommentsFault(f: Flags, t: Text, p: nat)
    requires f.comments && p <= |t| && SkipComments(t, p).Bad?
    ensures CommentFault(f, t, SkipComments(t, p).code, SkipComments(t, p).offset)
    decreases |t| - p
  {
    var q := SkipSpaces(t, p);
    var c := SkipComment(t, q);
    if c.Got? {
      CommentsFault(f, t, c.pos);
    } else if Peek(t, q + 1) == STAR {
      BlockFault(f, t, q + 2);
    }
  }

  lemma BlanksFault(f: Flags, t: Text, p: nat, log: seq<Event>)
    requires p <= |t| && Blanks(f, t, p, log).Err?
    ensures CommentFault(f, t, Blanks(f, t, p, log).code, Blanks(f, t, p, log).offset)
  {
    hide SkipComments, CommentFault;
    CommentsFault(f, t, p);
  }

  // ---- Strings ----

  lemma StringCodes(f: Flags, t: Text, code: ErrorCode, p: nat)
    requires StringFault(f, t, code, p)
    ensures code == StringMissQuotationMark || code == StringEscapeInvalid || code == StringUnicodeEscapeInvalidHex ||
            code == StringUnicodeSurrogateInvalid || code == StringInvalidEncoding
  {
    hide Utf8.Decode, HexAt, LeadAt, TrailAt;
  }

  lemma UnicodeFault(f: Flags, t: Text, p: nat)
    requires EscapeMark(t, p) && ScanUnicode(t, p).Bad?
    ensures StringFault(f, t, ScanUnicode(t, p).code, ScanUnicode(t, p).offset)
  {
    hide HexAt, Hex4;
  }

  lemma CharFault(f: Flags, t: Text, p: nat)
    requires Peek(t, p) != QUOTE && ScanChar(f, t, p).Bad?
    ensures StringFault(f, t, ScanChar(f, t, p).code, ScanChar(f, t, p).offset)
  {
    hide ScanUnicode, Utf8.Validate, Utf8.Decode, Utf8.Encode, HexAt, LeadAt, TrailAt;
    if EscapeMark(t, p) && ScanUnicode(t, p).Bad? {
      UnicodeFault(f, t, p);
    }
    if p < |t| {
      Utf8.ValidateAgrees(t, p);
    }
  }

  lemma {:induction false} ScanStringFault(f: Flags, t: Text, p: nat, acc: Text)
    requires ScanString(f, t, p, acc).Bad?
    ensures StringFault(f, t, ScanString(f, t, p, acc).code, ScanString(f, t, p, acc).offset)
    decreases |t| - p
  {
    hide ScanChar, StringFault;
    var c := ScanChar(f, t, p);
    if c.Got? {
      ScanStringFault(f, t, c.pos, acc + c.value);
    } else {
      CharFault(f, t, p);
    }
  }

  // ---- Words and numbers ----

  lemma WordFault(t: Text, p: nat, word: Text)
    requires word != [] && NUL !in word && Peek(t, p) == word[0] && ScanWord(t, p, word).Bad?
    ensures var r := ScanWord(t, p, word); r.code == ValueInvalid && LeavesWord(t, r.offset, word)
  {
    hide Matched, At;
    var m := Matched(t, p, word);
    Lenient.MatchedExact(t, p, word);
    assert m > 0 by { FirstMatched(t, p, word); }
    assert 0 < m < |word| && At(t, (p + m) - m, word[..m]) && Peek(t, p + m) != word[m];
  }

  lemma FirstMatched(t: Text, p: nat, word: Text)
    requires word != [] && Peek(t, p) == word[0]
    ensures Matched(t, p, word) > 0
  {
  }

  lemma ExponentFault(f: Flags, t: Text, part: IntegerPart, q: nat, integral: bool, scale: nat)
    requires part.start < q <= |t| && AllDigits(part.digits) && ScanExponent(f, t, part, q, integral, scale).Bad?
    requires Peek(t, part.start) == MINUS || IsDigit(Peek(t, part.start))
    ensures var r := ScanExponent(f, t, part, q, integral, scale); NumberFault(t, r.code, r.offset)
  {
    hide Numeral, DigitsEnd, NumberEventAt, LeavesWord, BeginsValue;
  }

  lemma FractionFault(f: Flags, t: Text, part: IntegerPart, q: nat)
    requires part.start < q <= |t| && AllDigits(part.digits) && ScanFraction(f, t, part, q).Bad?
    requires Peek(t, part.start) == MINUS || IsDigit(Peek(t, part.start))
    ensures var r := ScanFraction(f, t, part, q); NumberFault(t, r.code, r.offset)
  {
    hide ScanExponent, IntegerTooBig, DigitsEnd, FractionScale, LeavesWord, BeginsValue;
    if !IntegerTooBig(f.arithmetic, part.minus, part.digits) {
      if Peek(t, q) != DOT {
        ExponentFault(f, t, part, q, true, 0);
      } else if IsDigit(Peek(t, q + 1)) {
        var r := DigitsEnd(t, q + 1);
        ExponentFault(f, t, part, r, false, FractionScale(part.minus, part.digits, t[q + 1..r]));
      }
    }
  }

  lemma ScanNumberFault(f: Flags, t: Text, p: nat)
    requires p <= |t| && !f.nanAndInf && ScanNumber(f, t, p).Bad?
    requires var c := Peek(t, p); BeginsValue(c) ==> IsDigit(c) || c == MINUS
    ensures var r := ScanNumber(f, t, p); NumberFault(t, r.code, r.offset)
  {
    hide ScanFraction, DigitsEnd, LeavesWord;
    var minus := Peek(t, p) == MINUS;
    var q := if minus then p + 1 else p;
    var c := Peek(t, q);
    if c == ZERO {
      FractionFault(f, t, IntegerPart(p, minus, [ZERO], false), q + 1);
    } else if IsDigit(c) {
      var r := DigitsEnd(t, q);
      FractionFault(f, t, IntegerPart(p, minus, t[q..r], false), r);
    }
  }

  predicate IsNumberCode(code: ErrorCode) {
    code == NumberTooBig || code == NumberMissFraction || code == NumberMissExponent || code == ValueInvalid
  }

  lemma ScanNumberCodes(f: Flags, t: Text, p: nat)
    requires p <= |t| && ScanNumber(f, t, p).Bad?
    ensures IsNumberCode(ScanNumber(f, t, p).code)
  {
    hide IntegerTooBig, FractionScale, Numeral, DigitsEnd, NumberEventAt, Matched;
  }

  // ---- Values ----

  predicate Sound(f: Flags, t: Text, r: Outcome, nest: Nest) {
    if r.Ok? then Around(r.log) == nest && BehindValue(r.log) else IsTrue(f, t, r.code, r.offset, r.log)
  }

  lemma Sent(f: Flags, t: Text, r: Outcome, log: seq<Event>, e: Event)
    requires r.Ok? && r.log == log + [e] && !e.EKey? && !e.EStartObject? && !e.EStartArray?
    ensures Sound(f, t, r, Entered(Around(log), e))
  {
    AroundAppend(log, e);
  }

  lemma ScalarSound(f: Flags, t: Text, p: nat, log: seq<Event>)
    requires p <= |t| && AwaitsValue(log) && Peek(t, p) != LBRACE && Peek(t, p) != LBRACKET
    ensures Sound(f, t, ParseScalar(f, t, p, log), Around(log))
  {
    hide ScanString, ScanNumber, ScanWord, StringFault, LeavesWord, AwaitsValue, Around, BehindValue;
    var r := ParseScalar(f, t, p, log);
    var c := Peek(t, p);
    if r.Ok? {
      var e := r.log[|log|];
      assert r.log == log + [e];
      if c != QUOTE && c != NULL_WORD[0] && c != TRUE_WORD[0] && c != FALSE_WORD[0] {
        Discipline.NumberReports(f, t, p);
      }
      Sent(f, t, r, log, e);
    } else if c == QUOTE {
      ScanStringFault(f, t, p + 1, []);
      StringCodes(f, t, r.code, r.offset);
    } else if c == NULL_WORD[0] {
      WordFault(t, p, NULL_WORD);
    } else if c == TRUE_WORD[0] {
      WordFault(t, p, TRUE_WORD);
    } else if c == FALSE_WORD[0] {
      WordFault(t, p, FALSE_WORD);
    } else {
      ScanNumberCodes(f, t, p);
      if !f.nanAndInf {
        ScanNumberFault(f, t, p);
      }
    }
  }

  lemma BlanksSound(f: Flags, t: Text, p: nat, log: seq<Event>)
    requires p <= |t| && Blanks(f, t, p, log).Err?
    ensures var r := Blanks(f, t, p, log); IsTrue(f, t, r.code, r.offset, r.log)
  {
    hide Skip;
    BlanksFault(f, t, p, log);
  }

  lemma {:induction false} ValueSound(f: Flags, t: Text, p: nat, log: seq<Event>)
    requires p <= |t| && AwaitsValue(log)
    ensures Sound(f, t, ParseValue(f, t, p, log), Around(log))
    decreases |t| - p, 1
  {
    hide Sound, AwaitsValue, ParseScalar, ParseObject, ParseArray;
    if Peek(t, p) == LBRACE {
      ObjectSound(f, t, p, log);
    } else if Peek(t, p) == LBRACKET {
      ArraySound(f, t, p, log);
    } else {
      ScalarSound(f, t, p, log);
    }
  }

  lemma {:induction false} ObjectSound(f: Flags, t: Text, p: nat, log: seq<Event>)
    requires Peek(t, p) == LBRACE
    ensures Sound(f, t, ParseObject(f, t, p, log), Around(log))
    decreases |t| - p, 0
  {
    hide IsTrue, ParseMembers, Blanks, Around;
    var start := log + [EStartObject];
    AroundAppend(log, EStartObject);
    var b := Blanks(f, t, p + 1, start);
    if b.Err? {
      BlanksSound(f, t, p + 1, start);
    } else if Peek(t, b.pos) == RBRACE {
      Sent(f, t, ParseObject(f, t, p, log), start, EEndObject(0));
    } else {
      MembersSound(f, t, b.pos, start, 0);
    }
  }

  lemma {:induction false} MembersSound(f: Flags, t: Text, p: nat, log: seq<Event>, count: nat)
    requires p <= |t| && InObject(log) && !BehindKey(log)
    ensures Sound(f, t, ParseMembers(f, t, p, log, count), Outside(Around(log)))
    decreases |t| - p, 2
  {
    hide ScanString, ParseMemberValue, Blanks, Around, StringFault;
    if Peek(t, p) == QUOTE {
      var k := ParseString(f, t, p, log, true);
      if k.Err? {
        ScanStringFault(f, t, p + 1, []);
        StringCodes(f, t, k.code, k.offset);
      } else {
        var key := k.log[|log|];
        assert k.log == log + [key] && key.EKey?;
        AroundAppend(log, key);
        var a := Blanks(f, t, k.pos, k.log);
        if a.Err? {
          BlanksSound(f, t, k.pos, k.log);
        } else if Peek(t, a.pos) == COLON {
          MemberValueSound(f, t, a.pos + 1, k.log, count);
        }
      }
    }
  }

  lemma {:induction false} MemberValueSound(f: Flags, t: Text, p: nat, log: seq<Event>, count: nat)
    requires p <= |t| && InObject(log) && BehindKey(log)
    ensures Sound(f, t, ParseMemberValue(f, t, p, log, count), Outside(Around(log)))
    decreases |t| - p, 3
  {
    hide IsTrue, ParseValue, ParseMembersTail, Blanks, Around;
    var b := Blanks(f, t, p, log);
    if b.Err? {
      BlanksSound(f, t, p, log);
    } else {
      ValueSound(f, t, b.pos, log);
      var v := ParseValue(f, t, b.pos, log);
      if v.Ok? {
        var c := Blanks(f, t, v.pos, v.log);
        if c.Err? {
          BlanksSound(f, t, v.pos, v.log);
        } else {
          MembersTailSound(f, t, c.pos, v.log, count + 1);
        }
      }
    }
  }

  lemma {:induction false} MembersTailSound(f: Flags, t: Text, p: nat, log: seq<Event>, count: nat)
    requires p <= |t| && InObject(log) && BehindValue(log)
    ensures Sound(f, t, ParseMembersTail(f, t, p, log, count), Outside(Around(log)))
    decreases |t| - p, 2
  {
    hide ParseMembers, Blanks, Around;
    var r := ParseMembersTail(f, t, p, log, count);
    if Peek(t, p) == RBRACE {
      Sent(f, t, r, log, EEndObject(count));
    } else if Peek(t, p) == COMMA {
      var b := Blanks(f, t, p + 1, log);
      if b.Err? {
        BlanksSound(f, t, p + 1, log);
      } else if f.trailingCommas && Peek(t, b.pos) == RBRACE {
        Sent(f, t, r, log, EEndObject(count));
      } else {
        MembersSound(f, t, b.pos, log, count);
      }
    }
  }

  lemma {:induction false} ArraySound(f: Flags, t: Text, p: nat, log: seq<Event>)
    requires Peek(t, p) == LBRACKET
    ensures Sound(f, t, ParseArray(f, t, p, log), Around(log))
    decreases |t| - p, 0
  {
    hide IsTrue, ParseElements, Blanks, Around;
    var start := log + [EStartArray];
    AroundAppend(log, EStartArray);
    var b := Blanks(f, t, p + 1, start);
    if b.Err? {
      BlanksSound(f, t, p + 1, start);
    } else if Peek(t, b.pos) == RBRACKET {
      Sent(f, t, ParseArray(f, t, p, log), start, EEndArray(0));
    } else {
      ElementsSound(f, t, b.pos, start, 0);
    }
  }

  lemma {:induction false} ElementsSound(f: Flags, t: Text, p: nat, log: seq<Event>, count: nat)
    requires p <= |t| && InArray(log) && !BehindKey(log)
    ensures Sound(f, t, ParseElements(f, t, p, log, count), Outside(Around(log)))
    decreases |t| - p, 2
  {
    hide IsTrue, ParseValue, ParseElementsTail, Blanks, Around;
    ValueSound(f, t, p, log);
    var v := ParseValue(f, t, p, log);
    if v.Ok? {
      var b := Blanks(f, t, v.pos, v.log);
      if b.Err? {
        BlanksSound(f, t, v.pos, v.log);
      } else {
        ElementsTailSound(f, t, b.pos, v.log, count + 1);
      }
    }
  }

  lemma {:induction false} ElementsTailSound(f: Flags, t: Text, p: nat, log: seq<Event>, count: nat)
    requires p <= |t| && InArray(log) && BehindValue(log)
    ensures Sound(f, t, ParseElementsTail(f, t, p, log, count), Outside(Around(log)))
    decreases |t| - p, 2
  {
    hide ParseElements, Blanks, Around;
    var r := ParseElementsTail(f, t, p, log, count);
    if Peek(t, p) == RBRACKET {
      Sent(f, t, r, log, EEndArray(count));
    } else if Peek(t, p) == COMMA {
      var b := Blanks(f, t, p + 1, log);
      if b.Err? {
        BlanksSound(f, t, p + 1, log);
      } else if f.trailingCommas && Peek(t, b.pos) == RBRACKET {
        Sent(f, t, r, log, EEndArray(count));
      } else {
        ElementsSound(f, t, b.pos, log, count);
      }
    }
  }

  // ---- Whole texts ----

  lemma {:induction false} SpacesPassed(t: Text, p: nat)
    ensures forall i :: p <= i < SkipSpaces(t, p) ==> IsSpace(Peek(t, i))
    decreases |t| - p
  {
    if IsSpace(Peek(t, p)) {
      SpacesPassed(t, p + 1);
    }
  }

  /** Whatever the text and the flags: the error reported is true of the text at its offset and of what has been
      reported before it. */
  lemma ErrorIsTrue(f: Flags, t: Text)
    ensures var r := Parse(f, t); r.Err? ==> IsTrue(f, t, r.code, r.offset, r.log)
  {
    hide ParseValue, SkipComments, SkipSpaces, Around, StringFault, NumberFault, CommentFault;
    var b := Blanks(f, t, 0, []);
    if b.Err? {
      BlanksSound(f, t, 0, []);
    } else if Peek(t, b.pos) == NUL {
      SpacesPassed(t, 0);
    } else {
      ValueSound(f, t, b.pos, []);
      assert Around([]) == Outermost by { AroundNone(); }
      var v := ParseValue(f, t, b.pos, []);
      if v.Ok? && !f.stopWhenDone && Blanks(f, t, v.pos, v.log).Err? {
        BlanksSound(f, t, v.pos, v.log);
      }
    }
  }

  lemma AroundNone()
    ensures Around([]) == Outermost
  {
  }
}
