/** GenericReader of reader.h over a mutable buffer: both parsers, copying and in-situ strings, one handler log. */
module Reader {
  import opened Bytes
  import opened Json
  import opened Scanner
  import opened Recursive
  import opened Doubles
  import Iterative
  import Rounding
  import Utf8

  /** parseResult_. */
  datatype ParseResult = NoError | Failed(code: ErrorCode, offset: nat)

  /** The string an event delivers through a pointer, if it delivers one. */
  function Delivered(e: Event): Text {
    match e
    case EString(s) => s
    case EKey(s) => s
    case ERawNumber(s) => s
    case _ => []
  }

  predicate DeliversString(e: Event) {
    e.EString? || e.EKey? || e.ERawNumber?
  }

  class GenericReader {
    const flags: Flags
    const insitu: bool
    /** The stream's buffer without its terminating NUL; in-situ parsing writes into it. */
    const buf: array<Byte>
    var src: nat
    var error: ParseResult
    /** The events the handler has received. */
    var log: seq<Event>
    /** What the buffer held at the start. */
    ghost const text: Text
    /** Where the string of each delivered event lies in the buffer, in-situ only. */
    ghost var heads: seq<nat>

    constructor (flags: Flags, insitu: bool, buf: array<Byte>)
      ensures this.flags == flags && this.insitu == insitu && this.buf == buf && text == old(buf[..])
      ensures src == 0 && error == NoError && log == [] && Valid()
    {
      this.flags := flags;
      this.insitu := insitu;
      this.buf := buf;
      src := 0;
      error := NoError;
      log := [];
      text := buf[..];
      heads := [];
    }

    /** The read cursor is in range and no unread text has been altered. */
    ghost predicate Unread()
      reads this, buf
    {
      src <= buf.Length == |text| && forall k :: src <= k < buf.Length ==> buf[k] == text[k]
    }

    /** Every delivered in-situ string still stands in the buffer, before the read cursor. */
    ghost predicate Intact()
      reads this, buf
    {
      insitu ==>
        && |heads| == |log|
        && forall i :: 0 <= i < |log| && DeliversString(log[i]) ==> Stands(heads[i], log[i])
    }

    /** The string of an event stands at `head`; a NUL ends it unless it is the text of a number, behind which the
        source goes on. */
    ghost predicate Stands(head: nat, e: Event)
      reads this, buf
    {
      var s := Delivered(e);
      && head + |s| <= src <= buf.Length
      && (forall k :: 0 <= k < |s| ==> buf[head + k] == s[k])
      && (!e.ERawNumber? ==> head + |s| < src && buf[head + |s|] == NUL)
    }

    ghost predicate Valid()
      reads this, buf
    {
      Unread() && Intact() && (!insitu ==> buf[..] == text)
    }

    /** The reader stands where the specification says: cursor or error, and the log. */
    ghost predicate Reached(r: Outcome)
      reads this
    {
      log == r.log && if r.Ok? then error == NoError && src == r.pos else error == Failed(r.code, r.offset)
    }

    /** Peek. */
    function Cur(): (c: Byte)
      requires Unread()
      reads this, buf
      ensures c == Peek(text, src)
    {
      if src < buf.Length then buf[src] else NUL
    }

    /** SetParseError behind its assertion: an error is only assigned once. */
    method SetParseError(code: ErrorCode, offset: nat)
      requires error == NoError
      modifies `error
      ensures error == Failed(code, offset)
    {
      error := Failed(code, offset);
    }

    method Consume(wanted: Byte) returns (taken: bool)
      requires Unread() && wanted != NUL
      modifies `src
      ensures Unread() && taken == (Peek(text, old(src)) == wanted) && src == if taken then old(src) + 1 else old(src)
    {
      taken := Cur() == wanted;
      if taken {
        src := src + 1;
      }
    }

    // ---- Blanks ----

    method SkipWhitespace()
      requires Unread()
      modifies `src
      ensures Unread() && src == SkipSpaces(text, old(src)) && old(src) <= src
    {
      while IsSpace(Cur())
        invariant Unread() && old(src) <= src && SkipSpaces(text, src) == SkipSpaces(text, old(src))
        decreases buf.Length - src
      {
        src := src + 1;
      }
    }

    /** The inner loop of a block comment. */
    method SkipBlockComment()
      requires Unread() && error == NoError
      modifies `src, `error
      ensures Unread() && old(src) <= src
      ensures match SkipBlock(text, old(src))
              case Got(pos, _) => error == NoError && src == pos
              case Bad(code, offset) => error == Failed(code, offset)
    {
      while true
        invariant Unread() && old(src) <= src && SkipBlock(text, src) == SkipBlock(text, old(src)) && error == NoError
        decreases buf.Length - src
      {
        if Cur() == NUL {
          SetParseError(UnspecificSyntaxError, src);
          return;
        }
        var star := Consume(STAR);
        if star {
          var slash := Consume(SLASH);
          if slash {
            return;
          }
        } else {
          src := src + 1;
        }
      }
    }

    method SkipLineComment()
      requires Unread()
      modifies `src
      ensures Unread() && old(src) <= src && src == SkipLine(text, old(src))
    {
      while Cur() != NUL
        invariant Unread() && old(src) <= src && SkipLine(text, src) == SkipLine(text, old(src))
        decreases buf.Length - src
      {
        src := src + 1;
        if buf[src - 1] == LF {
          return;
        }
      }
    }

    /** One turn of the loop over comments. */
    method SkipOneComment()
      requires Unread() && error == NoError && Peek(text, src) == SLASH
      modifies `src, `error
      ensures Unread() && old(src) < src
      ensures match SkipComment(text, old(src))
              case Got(pos, _) => error == NoError && src == pos
              case Bad(code, offset) => error == Failed(code, offset)
    {
      src := src + 1;
      var block := Consume(STAR);
      if block {
        SkipBlockComment();
      } else {
        var line := Consume(SLASH);
        if line {
          SkipLineComment();
        } else {
          SetParseError(UnspecificSyntaxError, src);
        }
      }
    }

    method SkipWhitespaceAndComments()
      requires Unread() && error == NoError
      modifies `src, `error
      ensures Unread() && old(src) <= src
      ensures match Skip(flags, text, old(src))
              case Got(pos, _) => error == NoError && src == pos
              case Bad(code, offset) => error == Failed(code, offset)
    {
      hide SkipComment;
      SkipWhitespace();
      if flags.comments {
        while Cur() == SLASH
          invariant Unread() && old(src) <= src && error == NoError && !IsSpace(Peek(text, src))
          invariant SkipComments(text, src) == SkipComments(text, old(src))
          decreases buf.Length - src
        {
          SkipOneComment();
          if error != NoError {
            return;
          }
          SkipWhitespace();
        }
      }
    }

    // ---- Strings ----

    /** ParseHex4. */
    method ParseHex4(escapeOffset: nat) returns (codepoint: nat)
      requires Unread() && error == NoError
      modifies `src, `error
      ensures Unread() && old(src) <= src
      ensures if HexAt(text, old(src)) then error == NoError && src == old(src) + 4 && codepoint == Hex4(text, old(src))
              else error == Failed(StringUnicodeEscapeInvalidHex, escapeOffset)
    {
      codepoint := 0;
      for i := 0 to 4
        invariant Unread() && src == old(src) + i && error == NoError
        invariant HexRun(text, old(src), i)
        invariant codepoint == HexPrefix(text, old(src), i)
      {
        var c := Cur();
        if IsHex(c) {
          codepoint := codepoint * 16 + HexValue(c);
        } else {
          HexRunStops(text, old(src), i);
          SetParseError(StringUnicodeEscapeInvalidHex, escapeOffset);
          return;
        }
        src := src + 1;
      }
      HexPrefixFour(text, old(src));
    }

    /** The part of ParseStringToStream behind a backslash and a u. */
    method ParseUnicodeEscape(escapeOffset: nat) returns (codepoint: nat)
      requires Unread() && error == NoError && src == escapeOffset + 2
      modifies `src, `error
      ensures Unread() && old(src) <= src
      ensures match ScanUnicode(text, escapeOffset)
              case Got(pos, value) => error == NoError && src == pos && codepoint == value
              case Bad(code, offset) => error == Failed(code, offset)
    {
      hide HexAt, Hex4;
      codepoint := ParseHex4(escapeOffset);
      if error != NoError {
        return;
      }
      if 0xD800 <= codepoint <= 0xDBFF {
        var pair := Consume(BACKSLASH);
        if pair {
          pair := Consume(LETTER_U);
        }
        if !pair {
          SetParseError(StringUnicodeSurrogateInvalid, escapeOffset);
          return;
        }
        var trail := ParseHex4(escapeOffset);
        if error != NoError {
          return;
        }
        if trail < 0xDC00 || trail > 0xDFFF {
          SetParseError(StringUnicodeSurrogateInvalid, escapeOffset);
          return;
        }
        codepoint := (codepoint - 0xD800) * 0x400 + (trail - 0xDC00) + 0x10000;
      }
    }

    /** One character of a string: what it puts into the output. */
    method NextChar() returns (bytes: Text)
      requires Unread() && error == NoError && Peek(text, src) != QUOTE
      modifies `src, `error
      ensures Unread() && old(src) <= src
      ensures match ScanChar(flags, text, old(src))
              case Got(pos, value) => error == NoError && src == pos && bytes == value
              case Bad(code, offset) => error == Failed(code, offset)
    {
      hide ScanUnicode, Utf8.Encode, Utf8.Validate;
      bytes := [];
      var c := Cur();
      if c == BACKSLASH {
        var escapeOffset := src;
        src := src + 1;
        var e := Cur();
        if Unescape(e) != NUL {
          src := src + 1;
          bytes := [Unescape(e)];
        } else if e == LETTER_U {
          src := src + 1;
          var codepoint := ParseUnicodeEscape(escapeOffset);
          if error == NoError {
            bytes := Utf8.Encode(codepoint);
          }
        } else {
          SetParseError(StringEscapeInvalid, escapeOffset);
        }
      } else if c < 0x20 {
        SetParseError(if c == NUL then StringMissQuotationMark else StringEscapeInvalid, src);
      } else if flags.validateEncoding {
        var v := Utf8.Validate(buf[src..], 0);
        assert buf[src..] == text[src..];
        ValidateSuffix(text, buf[src..], src);
        if v.ok {
          src := src + v.next;
          bytes := v.out;
        } else {
          SetParseError(StringInvalidEncoding, src);
        }
      } else {
        src := src + 1;
        bytes := [c];
      }
    }

    /** ParseStringToStream into the reader's stack. */
    method ParseStringToStack() returns (out: Text)
      requires Unread() && error == NoError
      modifies `src, `error
      ensures Unread() && old(src) <= src
      ensures match ScanString(flags, text, old(src), [])
              case Got(pos, value) => error == NoError && src == pos && out == value
              case Bad(code, offset) => error == Failed(code, offset)
    {
      hide ScanChar;
      out := [];
      while Cur() != QUOTE
        invariant Unread() && old(src) <= src && error == NoError
        invariant ScanString(flags, text, src, out) == ScanString(flags, text, old(src), [])
        decreases buf.Length - src
      {
        var bytes := NextChar();
        if error != NoError {
          return;
        }
        out := out + bytes;
      }
      src := src + 1;
    }

    /** Put each of `bytes` at the in-situ write cursor. */
    method PutAll(dst: nat, bytes: Text)
      requires dst + |bytes| <= buf.Length
      modifies buf
      ensures buf[dst..dst + |bytes|] == bytes
      ensures forall k :: 0 <= k < buf.Length && !(dst <= k < dst + |bytes|) ==> buf[k] == old(buf[k])
    {
      for i := 0 to |bytes|
        invariant forall k :: 0 <= k < i ==> buf[dst + k] == bytes[k]
        invariant forall k :: 0 <= k < buf.Length && !(dst <= k < dst + i) ==> buf[k] == old(buf[k])
      {
        buf[dst + i] := bytes[i];
      }
    }

    /** ParseStringToStream into the source itself: the write cursor starts at the read cursor and never passes it,
        nothing before the string and nothing unread is touched, and a NUL ends the string. */
    method ParseStringToSource() returns (length: nat)
      requires Unread() && error == NoError
      modifies `src, `error, buf
      ensures Unread() && old(src) <= src
      ensures forall k :: 0 <= k < old(src) ==> buf[k] == old(buf[k])
      ensures match ScanString(flags, text, old(src), [])
              case Got(pos, value) =>
                && error == NoError && src == pos && length == |value| && old(src) + length < src
                && buf[old(src)..old(src) + length] == value && buf[old(src) + length] == NUL
              case Bad(code, offset) => error == Failed(code, offset)
    {
      hide ScanChar;
      var head := src;
      var dst := head;
      ghost var out: Text := [];
      length := 0;
      while Cur() != QUOTE
        invariant Unread() && head <= dst <= src && error == NoError
        invariant forall k :: 0 <= k < head ==> buf[k] == old(buf[k])
        invariant dst == head + |out| && buf[head..dst] == out
        invariant ScanString(flags, text, src, out) == ScanString(flags, text, head, [])
        decreases buf.Length - src
      {
        ghost var before := src;
        var bytes := NextChar();
        if error != NoError {
          return;
        }
        assert dst + |bytes| <= src by { CharShrinks(flags, text, before); }
        PutAll(dst, bytes);
        assert buf[head..dst + |bytes|] == out + bytes by { assert buf[head..dst] == out; }
        dst := dst + |bytes|;
        out := out + bytes;
      }
      src := src + 1;
      buf[dst] := NUL;
      length := dst - head;
    }

    // ---- Words and numbers ----

    /** A chain of Consume calls; what was taken before a mismatch stays taken. */
    method ConsumeWord(word: Text) returns (matched: bool)
      requires Unread() && NUL !in word
      modifies `src
      ensures Unread() && src == old(src) + Matched(text, old(src), word)
      ensures matched == (Matched(text, old(src), word) == |word|)
    {
      var i := 0;
      while i < |word|
        invariant Unread() && i <= |word| && src == old(src) + i
        invariant Matched(text, old(src), word) == i + Matched(text, src, word[i..])
      {
        var taken := Consume(word[i]);
        if !taken {
          return false;
        }
        assert word[i..][1..] == word[i + 1..];
        i := i + 1;
      }
      matched := true;
    }

    /** The four digit loops of ParseNumber, which differ in their bound: append digits while the number stays within
        `limit`. The test on the tenth of the limit keeps every intermediate within it. */
    method AccumulateDigits(start: nat, i: nat, limit: nat) returns (n: nat, overflow: bool)
      requires Unread() && start < src && AllDigits(text[start..src]) && i == Numeral(text[start..src]) && i <= limit
      modifies `src
      ensures Unread() && old(src) <= src && AllDigits(text[start..src]) && n == Numeral(text[start..src]) && n <= limit
      ensures DigitsEnd(text, src) == DigitsEnd(text, old(src))
      ensures if overflow then IsDigit(Peek(text, src)) &&
              n * 10 + (Peek(text, src) - ZERO) > limit else !IsDigit(Peek(text, src))
    {
      hide Numeral, AllDigits, DigitsEnd;
      n := i;
      while IsDigit(Cur())
        invariant Unread() && old(src) <= src && start < src
        invariant AllDigits(text[start..src]) && n == Numeral(text[start..src]) && n <= limit
        invariant DigitsEnd(text, src) == DigitsEnd(text, old(src))
        decreases buf.Length - src
      {
        var digit: int := Cur() - ZERO;
        if n >= limit / 10 {
          if n != limit / 10 || digit > limit % 10 {
            return n, true;
          }
        }
        DigitRead(text, start, src);
        n := n * 10 + digit;
        src := src + 1;
      }
      overflow := false;
    }

    /** "Force double for big integer": the rest of an integer that left the 64-bit range, refused when `d` gets too
        large. */
    method AccumulateDouble(start: nat, startOffset: nat, minus: bool, n: nat)
      requires Unread() && error == NoError && start < src && AllDigits(text[start..src]) &&
               n == Numeral(text[start..src])
      requires FitsInteger(minus, n) && IsDigit(Peek(text, src)) &&
               !FitsInteger(minus, n * 10 + (Peek(text, src) - ZERO))
      modifies `src, `error
      ensures Unread() && old(src) <= src
      ensures AllDigits(text[start..DigitsEnd(text, old(src))])
      ensures if IntegerTooBig(flags.arithmetic, minus, text[start..DigitsEnd(text, old(src))]) then
              error == Failed(NumberTooBig, startOffset)
              else error == NoError && src == DigitsEnd(text, old(src))
    {
      hide ReachesLimit, IntegerTooBig, DoubleOf, FitsInteger, Numeral, AllDigits, DigitsEnd, LeavesInteger, Intact;
      ghost var a := flags.arithmetic;
      var d := (flags.arithmetic.cast)(n);
      ghost var end := DigitsEnd(text, src);
      DigitsUpTo(text, src);
      DigitsJoin(text, start, src, end);
      ConvertedDouble(a, minus, text, start, src);
      while IsDigit(Cur())
        invariant Unread() && old(src) <= src <= end == DigitsEnd(text, src) && error == NoError
        invariant AllDigits(text[start..src]) && d == DoubleOf(a, minus, text[start..src])
        invariant !IntegerTooBig(a, minus, text[start..src])
        invariant IsDigit(Peek(text, src)) ==> LeavesInteger(minus, text, start, src)
        decreases buf.Length - src
      {
        NotYetEnd(text, src);
        if ReachesLimit(d) {
          TooBigEarly(a, minus, text, start, src, end);
          SetParseError(NumberTooBig, startOffset);
          return;
        }
        DoubleStep(a, minus, text, start, src);
        d := (flags.arithmetic.step)(d, buf[src] - ZERO);
        src := src + 1;
      }
      NoDigit(text, src);
    }

    /** The digits of a number that does not begin with zero, in 32 bits, then 64 bits, then as a double. */
    method ParseDigits(minus: bool, startOffset: nat)
        returns (n: nat, use64bit: bool, useDouble: bool, significant: nat)
      requires Unread() && error == NoError && IsDigit(Peek(text, src))
      modifies `src, `error
      ensures Unread() && old(src) <= src && old(src) < DigitsEnd(text, old(src)) <= |text|
      ensures var ds := text[old(src)..DigitsEnd(text, old(src))];
              if IntegerTooBig(flags.arithmetic, minus, ds) then error == Failed(NumberTooBig, startOffset)
              else
                && error == NoError && src == DigitsEnd(text, old(src))
                && useDouble == !FitsInteger(minus, Numeral(ds))
                && (useDouble ==> significant >= 17)
                && (!useDouble ==> n == Numeral(ds) && use64bit == (n > Limit32(minus)) && significant == |ds| - 1)
    {
      hide IntegerTooBig, Numeral, ReachesLimit;
      var start := src;
      ghost var end := DigitsEnd(text, start);
      useDouble := false;
      FirstDigit(text, start);
      n := buf[src] - ZERO;
      src := src + 1;
      n, use64bit := AccumulateDigits(start, n, Limit32(minus));
      if use64bit {
        ExceedsForGood(text, start, src, end, Limit32(minus));
        n, useDouble := AccumulateDigits(start, n, Limit64(minus));
      }
      significant := src - start - 1;
      if useDouble {
        ManyDigits(text, start, src, minus);
        ExceedsForGood(text, start, src, end, Limit64(minus));
        AccumulateDouble(start, startOffset, minus, n);
      } else {
        FittingIsSmall(flags.arithmetic, text, start, end, minus);
      }
    }

    /** Fraction digits that go into an integer significand of at most 53 bits. */
    method ParseFractionBits(n: nat, significant0: nat) returns (scale: nat, significant: nat)
      requires Unread()
      modifies `src
      ensures Unread() && old(src) <= src <= DigitsEnd(text, old(src)) == DigitsEnd(text, src)
      ensures AllDigits(text[old(src)..DigitsEnd(text, src)])
      ensures scale + RestKept(significant, DigitsEnd(text, src) - src) ==
              KeptDigits(n, significant0, text[old(src)..DigitsEnd(text, src)])
    {
      hide KeptDigits, RestKept, AllDigits;
      var i64: nat := n;
      ghost var end := DigitsEnd(text, src);
      significant, scale := significant0, 0;
      while IsDigit(Cur()) && i64 <= 0x1F_FFFF_FFFF_FFFF
        invariant Unread() && old(src) <= src <= end == DigitsEnd(text, src) && AllDigits(text[src..end])
        invariant scale + KeptDigits(i64, significant, text[src..end]) ==
                  KeptDigits(n, significant0, text[old(src)..end])
        decreases buf.Length - src
      {
        KeptNext(text, src, end, i64, significant);
        i64 := i64 * 10 + (buf[src] - ZERO);
        src := src + 1;
        scale := scale + 1;
        if i64 != 0 {
          significant := significant + 1;
        }
      }
      KeptRest(text, src, end, i64, significant);
    }

    /** The digits behind the decimal point; `scale` counts those that enter the significand (-expFrac). */
    method ParseFractionDigits(n: nat, useDouble: bool, significant0: nat) returns (scale: nat)
      requires Unread()
      requires useDouble ==> significant0 >= 17
      modifies `src
      ensures Unread() && src == DigitsEnd(text, old(src)) && old(src) <= src && AllDigits(text[old(src)..src])
      ensures scale == if useDouble then 0 else KeptDigits(n, significant0, text[old(src)..src])
    {
      hide KeptDigits, RestKept, AllDigits, DigitsEnd, Intact;
      var significant: nat := significant0;
      ghost var end := DigitsEnd(text, src);
      DigitsUpTo(text, src);
      scale := 0;
      if !useDouble {
        scale, significant := ParseFractionBits(n, significant0);
      }
      RestKeptNext(significant, end - src);
      ghost var kept := scale + RestKept(significant, end - src);
      while IsDigit(Cur())
        invariant Unread() && old(src) <= src <= end == DigitsEnd(text, src)
        invariant scale + RestKept(significant, end - src) == kept
        decreases buf.Length - src
      {
        NotYetEnd(text, src);
        RestKeptNext(significant, end - src);
        src := src + 1;
        if significant < 17 {
          scale := scale + 1;
          significant := significant + 1;
        }
      }
      NoDigit(text, src);
      RestKeptNext(significant, 0);
    }

    /** Behind the exponent mark: sign and digits. */
    method ParseExponent(scale: nat, startOffset: nat)
      requires Unread() && error == NoError
      modifies `src, `error
      ensures Unread() && old(src) <= src
      ensures var p := old(src);
              var u := if Peek(text, p) == PLUS || Peek(text, p) == MINUS then p + 1 else p;
              if !IsDigit(Peek(text, u)) then error == Failed(NumberMissExponent, u)
              else if Peek(text, p) != MINUS && Numeral(text[u..DigitsEnd(text, u)]) > 308 + scale then
                   error == Failed(NumberTooBig, startOffset)
              else error == NoError && src == DigitsEnd(text, u)
    {
      hide Numeral;
      var expMinus := false;
      var plus := Consume(PLUS);
      if !plus {
        expMinus := Consume(MINUS);
      }
      if !IsDigit(Cur()) {
        SetParseError(NumberMissExponent, src);
        return;
      }
      if expMinus {
        SkipDigits();
      } else {
        ParsePositiveExponent(308 + scale, startOffset);
      }
    }

    /** A negative exponent: its digits are consumed to the end, capped or not. */
    method SkipDigits()
      requires Unread()
      modifies `src
      ensures Unread() && old(src) <= src && src == DigitsEnd(text, old(src))
    {
      while IsDigit(Cur())
        invariant Unread() && old(src) <= src && DigitsEnd(text, src) == DigitsEnd(text, old(src))
        decreases buf.Length - src
      {
        src := src + 1;
      }
    }

    /** A positive exponent: refused as soon as it exceeds `maxExp`. */
    method ParsePositiveExponent(maxExp: nat, startOffset: nat)
      requires Unread() && error == NoError && IsDigit(Peek(text, src)) && maxExp >= 9
      modifies `src, `error
      ensures Unread() && old(src) <= src
      ensures if Numeral(text[old(src)..DigitsEnd(text, old(src))]) > maxExp then
              error == Failed(NumberTooBig, startOffset)
              else error == NoError && src == DigitsEnd(text, old(src))
    {
      hide Numeral, AllDigits, DigitsEnd;
      var start := src;
      ghost var end := DigitsEnd(text, start);
      FirstDigit(text, start);
      DigitsUpTo(text, start);
      var exp: nat := buf[src] - ZERO;
      src := src + 1;
      while IsDigit(Cur())
        invariant Unread() && start < src <= end == DigitsEnd(text, src) && error == NoError
        invariant AllDigits(text[start..src]) && exp == Numeral(text[start..src]) && exp <= maxExp
        decreases buf.Length - src
      {
        DigitRead(text, start, src);
        DigitsUpTo(text, src + 1);
        exp := exp * 10 + (buf[src] - ZERO);
        src := src + 1;
        if exp > maxExp {
          NumeralSoFar(text, start, src, end);
          SetParseError(NumberTooBig, startOffset);
          return;
        }
      }
      NoDigit(text, src);
    }

    /** NaN, Inf and Infinity. */
    method ParseNanOrInf()
      requires Unread() && error == NoError
      modifies `src, `error
      ensures Unread() && old(src) <= src
      ensures match ScanNanOrInf(text, old(src))
              case Got(pos, _) => error == NoError && src == pos
              case Bad(code, offset) => error == Failed(code, offset)
    {
      hide Matched;
      var matched := ConsumeWord(NAN_WORD);
      if !matched {
        matched := ConsumeWord(INF_WORD);
        if matched && Cur() == INITY_WORD[0] {
          matched := ConsumeWord(INITY_WORD);
        }
        if !matched {
          SetParseError(ValueInvalid, src);
        }
      }
    }

    // ---- Events ----

    /** Moving the read cursor on keeps the delivered strings intact. */
    twostate lemma StillIntact()
      requires old(Intact()) && unchanged(buf) && unchanged(`log) && unchanged(`heads) && old(src) <= src <= buf.Length
      ensures Intact()
    {
    }

    /** Call the handler; a string event points at `head`. */
    method Send(e: Event, head: nat)
      requires Intact()
      requires insitu && DeliversString(e) ==> Stands(head, e)
      modifies `log, `heads
      ensures Intact() && log == old(log) + [e]
      ensures heads == if insitu then old(heads) + [head] else old(heads)
    {
      log := log + [e];
      heads := if insitu then heads + [head] else heads;
    }

    /** The end of ParseNumber: the event according to the type of number. */
    method SendNumber(ghost part: IntegerPart, startOffset: nat, minus: bool, n: nat, use64bit: bool, useDouble: bool,
        useNanOrInf: bool, integral: bool)
      requires Unread() && Intact() && startOffset <= src
      requires part == IntegerPart(startOffset, minus, part.digits, useNanOrInf) && AllDigits(part.digits)
      requires forall k :: startOffset <= k < src ==> buf[k] == text[k]
      requires useDouble == !FitsInteger(minus, Numeral(part.digits))
      requires !useDouble ==> n == Numeral(part.digits) && use64bit == (n > Limit32(minus))
      modifies `log, `heads
      ensures Intact() && log == old(log) + [NumberEventAt(flags, text, part, src, integral)]
      ensures heads == if insitu then old(heads) + [startOffset] else old(heads)
    {
      hide Numeral, AllDigits, Intact, NumberChoice, FitsInteger, Limit32, NumberEventAt;
      var lexeme := buf[startOffset..src];
      assert lexeme == text[startOffset..src];
      NumberChoiceFits(flags, text, part, src, n, use64bit, useDouble, integral);
      var e := NumberChoice(flags, lexeme, !integral || useDouble || useNanOrInf, minus, use64bit, n);
      assert e == NumberEventAt(flags, text, part, src, integral);
      Send(e, startOffset);
    }

    /** ParseNumber behind the integer part `part`, whose value is in `n` unless it is a double. */
    method ParseNumberTail(ghost part: IntegerPart, startOffset: nat, minus: bool, n: nat, use64bit: bool,
        useDouble: bool, significant: nat, useNanOrInf: bool)
      requires Unread() && Intact() && error == NoError
      requires part == IntegerPart(startOffset, minus, part.digits, useNanOrInf) && startOffset < src &&
               AllDigits(part.digits)
      requires forall k :: startOffset <= k < src ==> buf[k] == text[k]
      requires !IntegerTooBig(flags.arithmetic, minus, part.digits) &&
               useDouble == !FitsInteger(minus, Numeral(part.digits))
      requires if useDouble then significant >= 17
               else n == Numeral(part.digits) && use64bit == (n > Limit32(minus)) &&
                    significant == if part.digits == [] then 0 else |part.digits| - 1
      modifies `src, `error, `log, `heads
      ensures Unread() && Intact() && old(src) <= src
      ensures Reached(Recursive.Send(ScanFraction(flags, text, part, old(src)), old(log)))
    {
      hide IntegerTooBig, Numeral, KeptDigits, AllDigits, DigitsEnd, Intact;
      var integral, scale: nat := true, 0;
      ghost var q := src;
      var dot := Consume(DOT);
      if dot {
        if !IsDigit(Cur()) {
          SetParseError(NumberMissFraction, src);
          StillIntact();
          return;
        }
        scale := ParseFractionDigits(n, useDouble, significant);
        integral := false;
      }
      ghost var r := src;
      assert ScanFraction(flags, text, part, q) == ScanExponent(flags, text, part, r, integral, scale);
      StillIntact();
      ParseNumberEnd(part, startOffset, minus, n, use64bit, useDouble, useNanOrInf, integral, scale);
    }

    /** ParseNumber behind the fraction. */
    method ParseNumberEnd(ghost part: IntegerPart, startOffset: nat, minus: bool, n: nat, use64bit: bool,
        useDouble: bool, useNanOrInf: bool, integral0: bool, scale: nat)
      requires Unread() && Intact() && error == NoError
      requires part == IntegerPart(startOffset, minus, part.digits, useNanOrInf) && startOffset < src &&
               AllDigits(part.digits)
      requires forall k :: startOffset <= k < src ==> buf[k] == text[k]
      requires useDouble == !FitsInteger(minus, Numeral(part.digits))
      requires !useDouble ==> n == Numeral(part.digits) && use64bit == (n > Limit32(minus))
      modifies `src, `error, `log, `heads
      ensures Unread() && Intact() && old(src) <= src
      ensures Reached(Recursive.Send(ScanExponent(flags, text, part, old(src), integral0, scale), old(log)))
    {
      hide Numeral, AllDigits, DigitsEnd, Intact, NumberEventAt, FitsInteger, Limit32;
      var integral := integral0;
      var exponent := Consume(LETTER_E);
      if !exponent {
        exponent := Consume(CAPITAL_E);
      }
      if exponent {
        ParseExponent(scale, startOffset);
        integral := false;
      }
      StillIntact();
      if error == NoError {
        SendNumber(part, startOffset, minus, n, use64bit, useDouble, useNanOrInf, integral);
      }
    }

    method ParseNumber()
      requires Unread() && Intact() && error == NoError
      modifies `src, `error, `log, `heads
      ensures Unread() && Intact() && old(src) <= src
      ensures Reached(Recursive.Send(ScanNumber(flags, text, old(src)), old(log)))
    {
      hide IntegerTooBig, Numeral, KeptDigits, Intact, ScanFraction, ScanNanOrInf;
      var startOffset := src;
      var minus := Consume(MINUS);
      var q := src;
      if Cur() == ZERO {
        src := src + 1;
        StillIntact();
        ZeroDigit(flags.arithmetic, minus);
        ParseNumberTail(IntegerPart(startOffset, minus, [ZERO], false), startOffset, minus, 0, false, false, 0, false);
      } else if IsDigit(Cur()) {
        var n, use64bit, useDouble, significant := ParseDigits(minus, startOffset);
        StillIntact();
        if error == NoError {
          ParseNumberTail(IntegerPart(startOffset, minus, text[q..src], false), startOffset, minus, n, use64bit,
              useDouble, significant, false);
        } else {
          TooBigScan(flags, text, IntegerPart(startOffset, minus, text[q..DigitsEnd(text, q)], false),
              DigitsEnd(text, q));
        }
      } else if flags.nanAndInf && (Cur() == INF_WORD[0] || Cur() == NAN_WORD[0]) {
        ParseNanOrInf();
        StillIntact();
        if error == NoError {
          ZeroDigit(flags.arithmetic, minus);
          ParseNumberTail(IntegerPart(startOffset, minus, [], true), startOffset, minus, 0, false, false, 0, true);
        }
      } else {
        SetParseError(ValueInvalid, src);
        StillIntact();
      }
    }

    // ---- Values ----

    /** Writing at or behind the read cursor's old place leaves the delivered strings alone. */
    twostate lemma StillIntactBelow()
      requires old(Intact()) && old(src) <= src <= buf.Length && unchanged(`log) && unchanged(`heads)
      requires old(src) <= buf.Length && forall k :: 0 <= k < old(src) ==> buf[k] == old(buf[k])
      ensures Intact()
    {
    }

    method ParseString(isKey: bool)
      requires Valid() && error == NoError && Peek(text, src) == QUOTE
      modifies `src, `error, `log, `heads, buf
      ensures Valid() && old(src) <= src
      ensures Reached(Recursive.ParseString(flags, text, old(src), old(log), isKey))
    {
      if insitu {
        ParseStringInsitu(isKey);
      } else {
        ParseStringCopied(isKey);
      }
    }

    /** ParseString for kParseInsituFlag: the delivered string lies in the source. */
    method ParseStringInsitu(isKey: bool)
      requires Valid() && error == NoError && Peek(text, src) == QUOTE && insitu
      modifies `src, `error, `log, `heads, buf
      ensures Valid() && old(src) <= src
      ensures Reached(Recursive.ParseString(flags, text, old(src), old(log), isKey))
    {
      hide ScanString, Intact, Stands;
      src := src + 1;
      var head := src;
      var length := ParseStringToSource();
      StillIntactBelow();
      if error == NoError {
        var s := buf[head..head + length];
        var e := if isKey then EKey(s) else EString(s);
        StandsThere(head, s, e);
        Send(e, head);
      }
    }

    lemma StandsThere(head: nat, s: Text, e: Event)
      requires e == EKey(s) || e == EString(s)
      requires head + |s| < src <= buf.Length && buf[head..head + |s|] == s && buf[head + |s|] == NUL
      ensures Stands(head, e)
    {
    }

    method ParseStringCopied(isKey: bool)
      requires Valid() && error == NoError && Peek(text, src) == QUOTE && !insitu
      modifies `src, `error, `log, `heads, buf
      ensures Valid() && old(src) <= src
      ensures Reached(Recursive.ParseString(flags, text, old(src), old(log), isKey))
    {
      hide ScanString, Intact;
      src := src + 1;
      var s := ParseStringToStack();
      StillIntactBelow();
      if error == NoError {
        Send(if isKey then EKey(s) else EString(s), 0);
      }
    }

    /** ParseNull, ParseTrue and ParseFalse. */
    method ParseWord(word: Text, e: Event)
      requires Valid() && error == NoError && word != [] && NUL !in word && !DeliversString(e)
      modifies `src, `error, `log, `heads
      ensures Valid() && old(src) <= src
      ensures Reached(Recursive.ParseWord(text, old(src), old(log), word, e))
    {
      hide Intact, Matched;
      var matched := ConsumeWord(word);
      StillIntact();
      if matched {
        Send(e, 0);
      } else {
        SetParseError(ValueInvalid, src);
        StillIntact();
      }
    }

    /** The cases of ParseValue that read neither object nor array. */
    method ParseScalar()
      requires Valid() && error == NoError
      modifies `src, `error, `log, `heads, buf
      ensures Valid() && old(src) <= src
      ensures Reached(Recursive.ParseScalar(flags, text, old(src), old(log)))
    {
      hide Intact, ScanNumber, Recursive.ParseString, Recursive.ParseWord;
      var c := Cur();
      if c == NULL_WORD[0] {
        ParseWord(NULL_WORD, ENull);
      } else if c == TRUE_WORD[0] {
        ParseWord(TRUE_WORD, EBool(true));
      } else if c == FALSE_WORD[0] {
        ParseWord(FALSE_WORD, EBool(false));
      } else if c == QUOTE {
        ParseString(false);
      } else {
        ParseNumber();
      }
    }

    /** SkipWhitespaceAndComments between events. */
    method SkipBlanks()
      requires Valid() && error == NoError
      modifies `src, `error
      ensures Valid() && old(src) <= src
      ensures Reached(Blanks(flags, text, old(src), old(log)))
    {
      hide Intact, Skip;
      SkipWhitespaceAndComments();
      StillIntact();
    }

    /** Take a character that stands at the cursor. */
    method Take(c: Byte)
      requires Valid() && Peek(text, src) == c && c != NUL
      modifies `src
      ensures Valid() && src == old(src) + 1
    {
      hide Intact;
      src := src + 1;
      StillIntact();
    }

    /** Send an event without a string. */
    method Notify(e: Event)
      requires Valid() && !DeliversString(e)
      modifies `log, `heads
      ensures Valid() && log == old(log) + [e]
    {
      hide Intact;
      Send(e, 0);
    }

    method Fail(code: ErrorCode)
      requires Valid() && error == NoError
      modifies `error
      ensures Valid() && error == Failed(code, src)
    {
      hide Intact;
      SetParseError(code, src);
      StillIntact();
    }

    method ParseValue()
      requires Valid() && error == NoError
      modifies `src, `error, `log, `heads, buf
      ensures Valid() && old(src) <= src
      ensures Reached(Recursive.ParseValue(flags, text, old(src), old(log)))
      decreases buf.Length - src, 1
    {
      hide Intact, Recursive.ParseScalar, Recursive.ParseObject, Recursive.ParseArray;
      var c := Cur();
      if c == LBRACE {
        ParseObject();
      } else if c == LBRACKET {
        ParseArray();
      } else {
        ParseScalar();
      }
    }

    /** Behind an element: close the array, or move on behind the comma. */
    method AfterElement(elementCount: nat) returns (done: bool)
      requires Valid() && error == NoError
      modifies `src, `error, `log, `heads
      ensures Valid() && old(src) <= src
      ensures var all := Recursive.ParseElementsTail(flags, text, old(src), old(log), elementCount);
              if error == NoError && !done then old(src) < src &&
                  Recursive.ParseElements(flags, text, src, log, elementCount) == all
              else Reached(all)
    {
      hide Intact, Skip, Recursive.ParseElements;
      done := true;
      if Cur() == COMMA {
        Take(COMMA);
        SkipBlanks();
        if error != NoError {
          return;
        }
      } else if Cur() == RBRACKET {
        Take(RBRACKET);
        Notify(EEndArray(elementCount));
        return;
      } else {
        Fail(ArrayMissCommaOrSquareBracket);
        return;
      }
      if flags.trailingCommas {
        if Cur() == RBRACKET {
          Notify(EEndArray(elementCount));
          Take(RBRACKET);
          return;
        }
      }
      done := false;
    }

    method ParseArray()
      requires Valid() && error == NoError && Peek(text, src) == LBRACKET
      modifies `src, `error, `log, `heads, buf
      ensures Valid() && old(src) <= src
      ensures Reached(Recursive.ParseArray(flags, text, old(src), old(log)))
      decreases buf.Length - src, 0
    {
      hide Intact, Skip, Recursive.ParseValue, Recursive.ParseElementsTail;
      ghost var all := Recursive.ParseArray(flags, text, src, log);
      Take(LBRACKET);
      Notify(EStartArray);
      SkipBlanks();
      if error != NoError {
        return;
      }
      if Cur() == RBRACKET {
        Take(RBRACKET);
        Notify(EEndArray(0));
        return;
      }
      var elementCount := 0;
      while true
        invariant Valid() && error == NoError && old(src) < src
        invariant Recursive.ParseElements(flags, text, src, log, elementCount) == all
        decreases buf.Length - src
      {
        ParseValue();
        if error != NoError {
          return;
        }
        elementCount := elementCount + 1;
        SkipBlanks();
        if error != NoError {
          return;
        }
        var done := AfterElement(elementCount);
        if done || error != NoError {
          return;
        }
      }
    }

    /** Behind a member: close the object, or move on behind the comma. */
    method AfterMember(memberCount: nat) returns (done: bool)
      requires Valid() && error == NoError
      modifies `src, `error, `log, `heads
      ensures Valid() && old(src) <= src
      ensures var all := Recursive.ParseMembersTail(flags, text, old(src), old(log), memberCount);
              if error == NoError && !done then old(src) < src &&
                  Recursive.ParseMembers(flags, text, src, log, memberCount) == all
              else Reached(all)
    {
      hide Intact, Skip, Recursive.ParseMembers;
      done := true;
      if Cur() == COMMA {
        Take(COMMA);
        SkipBlanks();
        if error != NoError {
          return;
        }
      } else if Cur() == RBRACE {
        Take(RBRACE);
        Notify(EEndObject(memberCount));
        return;
      } else {
        Fail(ObjectMissCommaOrCurlyBracket);
        return;
      }
      if flags.trailingCommas {
        if Cur() == RBRACE {
          Notify(EEndObject(memberCount));
          Take(RBRACE);
          return;
        }
      }
      done := false;
    }

    method ParseObject()
      requires Valid() && error == NoError && Peek(text, src) == LBRACE
      modifies `src, `error, `log, `heads, buf
      ensures Valid() && old(src) <= src
      ensures Reached(Recursive.ParseObject(flags, text, old(src), old(log)))
      decreases buf.Length - src, 0
    {
      hide Intact, Skip, Recursive.ParseValue, Recursive.ParseMembersTail;
      ghost var all := Recursive.ParseObject(flags, text, src, log);
      Take(LBRACE);
      Notify(EStartObject);
      SkipBlanks();
      if error != NoError {
        return;
      }
      if Cur() == RBRACE {
        Take(RBRACE);
        Notify(EEndObject(0));
        return;
      }
      var memberCount := 0;
      while true
        invariant Valid() && error == NoError && old(src) < src
        invariant Recursive.ParseMembers(flags, text, src, log, memberCount) == all
        decreases buf.Length - src
      {
        if Cur() != QUOTE {
          Fail(ObjectMissName);
          return;
        }
        ParseMember(memberCount);
        if error != NoError {
          return;
        }
        memberCount := memberCount + 1;
        var done := AfterMember(memberCount);
        if done || error != NoError {
          return;
        }
      }
    }

    /** Name, colon, value and the blanks between and behind them: the part of ParseObject's loop up to the comma. */
    method ParseMember(ghost count: nat)
      requires Valid() && error == NoError && Peek(text, src) == QUOTE
      modifies `src, `error, `log, `heads, buf
      ensures Valid() && old(src) <= src
      ensures var all := Recursive.ParseMembers(flags, text, old(src), old(log), count);
              if error == NoError then old(src) < src &&
                  Recursive.ParseMembersTail(flags, text, src, log, count + 1) == all
              else Reached(all)
      decreases buf.Length - src, 0
    {
      hide Intact, Skip, Recursive.ParseValue, Recursive.ParseMembersTail, ScanString;
      ParseString(true);
      if error != NoError {
        return;
      }
      SkipBlanks();
      if error != NoError {
        return;
      }
      if Cur() != COLON {
        Fail(ObjectMissColon);
        return;
      }
      Take(COLON);
      SkipBlanks();
      if error != NoError {
        return;
      }
      ParseValue();
      if error != NoError {
        return;
      }
      SkipBlanks();
    }

    // ---- Documents ----

    /** Parse without kParseIterativeFlag. */
    method Parse()
      requires Valid()
      modifies `src, `error, `log, `heads, buf
      ensures Valid() && Reached(Recursive.ParseFrom(flags, text, old(src), old(log)))
    {
      hide Intact, Skip, Recursive.ParseValue;
      error := NoError;
      StillIntact();
      SkipBlanks();
      if error != NoError {
        return;
      }
      if Cur() == NUL {
        Fail(DocumentEmpty);
        return;
      }
      ParseValue();
      if error != NoError {
        return;
      }
      if !flags.stopWhenDone {
        SkipBlanks();
        if error != NoError {
          return;
        }
        if Cur() != NUL {
          Fail(DocumentRootNotSingular);
        }
      }
    }

    /** The automaton's configuration at the cursor. */
    ghost function Config(state: Iterative.State, stack: Iterative.Stack): Iterative.Config
      reads this
    {
      Iterative.Config(state, stack, src, log)
    }

    /** What a move leaves behind, or how it fails. */
    ghost predicate Moved(s: Iterative.Step, state: Iterative.State, next: Iterative.State, rest: Iterative.Stack)
      reads this
    {
      match s
      case Next(c) => error == NoError && Config(next, rest) == c
      case Stop(r) =>
        && next == Iterative.Error && r.Err? && log == r.log
        && (error == Failed(r.code, r.offset) ||
           (error == NoError && r.code == Iterative.ErrorOf(state) && r.offset == src))
    }

    /** The moves that open a container. */
    method TransitOpen(state: Iterative.State, stack: Iterative.Stack, dst: Iterative.State)
        returns (next: Iterative.State, rest: Iterative.Stack)
      requires Valid() && error == NoError && Peek(text, src) != NUL && Iterative.Valid(Config(state, stack)) &&
               Iterative.Follows(state, dst)
      requires dst == Iterative.ObjectInitial || dst == Iterative.ArrayInitial
      modifies `src, `error, `log, `heads, buf
      ensures Valid() && old(src) <= src &&
              Moved(Iterative.Transit(flags, text, old(Config(state, stack)), dst), state, next, rest)
    {
      hide Intact;
      rest := Iterative.Push(Iterative.Frame(Iterative.ResumeState(state), 0), stack);
      next := dst;
      Notify(if dst == Iterative.ObjectInitial then EStartObject else EStartArray);
      Take(Cur());
    }

    /** The moves that close a container. */
    method TransitClose(state: Iterative.State, stack: Iterative.Stack, dst: Iterative.State)
        returns (next: Iterative.State, rest: Iterative.Stack)
      requires Valid() && error == NoError && Peek(text, src) != NUL && Iterative.Valid(Config(state, stack)) &&
               Iterative.Follows(state, dst)
      requires dst == Iterative.ObjectFinish || dst == Iterative.ArrayFinish
      modifies `src, `error, `log, `heads, buf
      ensures Valid() && old(src) <= src &&
              Moved(Iterative.Transit(flags, text, old(Config(state, stack)), dst), state, next, rest)
    {
      hide Intact;
      next, rest := Iterative.Error, stack;
      if dst == Iterative.ObjectFinish {
        if !flags.trailingCommas && state == Iterative.MemberDelimiter {
          Fail(ObjectMissName);
          return;
        }
        Notify(EEndObject(if state == Iterative.MemberValue then stack.top.count + 1 else stack.top.count));
      } else {
        if !flags.trailingCommas && state == Iterative.ElementDelimiter {
          Fail(ValueInvalid);
          return;
        }
        Notify(EEndArray(if state == Iterative.Element then stack.top.count + 1 else stack.top.count));
      }
      Take(Cur());
      next, rest := Iterative.Popped(stack), stack.rest;
    }

    /** Transit: carry out the move to the predicted state. On the Error state an error code may still be missing. */
    method Transit(state: Iterative.State, stack: Iterative.Stack, dst: Iterative.State)
        returns (next: Iterative.State, rest: Iterative.Stack)
      requires Valid() && error == NoError && src < buf.Length && Iterative.Valid(Config(state, stack))
      requires dst == Iterative.Error || Iterative.Follows(state, dst)
      requires dst == Iterative.MemberKey ==> Peek(text, src) == QUOTE
      requires Peek(text, src) != NUL
      modifies `src, `error, `log, `heads, buf
      ensures Valid() && old(src) <= src
      ensures Moved(Iterative.Transit(flags, text, old(Config(state, stack)), dst), state, next, rest)
    {
      hide Intact, Recursive.ParseScalar, Recursive.ParseString;
      rest := stack;
      next := dst;
      match dst
      case Error =>
      case ObjectInitial => next, rest := TransitOpen(state, stack, dst);
      case ArrayInitial => next, rest := TransitOpen(state, stack, dst);
      case MemberKey =>
        ParseString(true);
        next := if error == NoError then dst else Iterative.Error;
      case KeyValueDelimiter =>
        Take(Cur());
      case MemberDelimiter =>
        Take(Cur());
        rest := Iterative.Counted(stack);
      case ElementDelimiter =>
        Take(Cur());
        rest := Iterative.Counted(stack);
      case ObjectFinish => next, rest := TransitClose(state, stack, dst);
      case ArrayFinish => next, rest := TransitClose(state, stack, dst);
      case MemberValue =>
        ParseScalar();
        next := if error == NoError then dst else Iterative.Error;
      case Element =>
        ParseScalar();
        next := if error == NoError then dst else Iterative.Error;
      case Value =>
        ParseScalar();
        next := if error == NoError then Iterative.Finish else Iterative.Error;
    }

    /** HandleError: an error code for the state, unless one has been set. */
    method HandleError(state: Iterative.State)
      requires Valid()
      modifies `error
      ensures Valid() && error == if old(error) == NoError then Failed(Iterative.ErrorOf(state), src) else old(error)
    {
      hide Intact;
      if error == NoError {
        Fail(Iterative.ErrorOf(state));
      }
    }

    method IterativeParse()
      requires Valid()
      modifies `src, `error, `log, `heads, buf
      ensures Valid() && Reached(Iterative.IterativeParseFrom(flags, text, old(src), old(log)))
    {
      hide Intact, Skip, Iterative.Predict, Iterative.Tokenize, Iterative.MadeOn, Iterative.Transit, Iterative.Loop,
           Iterative.Resume, Iterative.ErrorOf, Iterative.Advance, Iterative.Follows;
      ghost var all := Iterative.IterativeParseFrom(flags, text, src, log);
      error := NoError;
      StillIntact();
      var state: Iterative.State, stack: Iterative.Stack := Iterative.Start, Iterative.Empty;
      SkipBlanks();
      if error != NoError {
        return;
      }
      ghost var left := false;
      while Cur() != NUL
        invariant Valid() && error == NoError && Iterative.Valid(Config(state, stack)) && !left
        invariant Iterative.Loop(flags, text, Config(state, stack)) == all
        decreases buf.Length - src
      {
        Iterative.TurnMoves(flags, text, Config(state, stack));
        var token := Iterative.Tokenize(Cur());
        var dst := Iterative.Predict(state, token);
        Iterative.KeyToken(state, Cur());
        var next, rest := Transit(state, stack, dst);
        if next == Iterative.Error {
          HandleError(state);
          left := true;
          break;
        }
        state, stack := next, rest;
        Iterative.ResumeSteps(flags, text, Config(state, stack));
        if flags.stopWhenDone && state == Iterative.Finish {
          left := true;
          break;
        }
        SkipBlanks();
        if error != NoError {
          return;
        }
      }
      if !left {
        Iterative.LoopEnds(flags, text, Config(state, stack));
      }
      if state != Iterative.Finish {
        HandleError(state);
      }
    }
  }

  /** The type switch at the end of ParseNumber. */
  function NumberChoice(f: Flags, lexeme: Text, isDouble: bool, minus: bool, use64bit: bool, n: nat): (e: Event)
    ensures DeliversString(e) ==> e == ERawNumber(lexeme)
  {
    var i: int := n;
    if f.numbersAsStrings then ERawNumber(lexeme)
    else if isDouble then EDouble(lexeme)
    else if use64bit then (if minus then EInt64(-i) else EUint64(i))
    else if minus then EInt(-i) else EUint(i)
  }

  lemma NumberChoiceFits(f: Flags, t: Text, part: IntegerPart, end: nat, n: nat, use64bit: bool, useDouble: bool,
      integral: bool)
    requires part.start <= end <= |t| && AllDigits(part.digits)
    requires useDouble == !FitsInteger(part.minus, Numeral(part.digits))
    requires !useDouble ==> n == Numeral(part.digits) && use64bit == (n > Limit32(part.minus))
    ensures NumberChoice(f, t[part.start..end], !integral || useDouble || part.nan, part.minus, use64bit, n) ==
            NumberEventAt(f, t, part, end, integral)
  {
    hide Numeral;
  }

  lemma ZeroDigit(a: Arithmetic, minus: bool)
    ensures Numeral([ZERO]) == 0 && Numeral([]) == 0 && FitsInteger(minus, 0)
    ensures !IntegerTooBig(a, minus, [ZERO]) && !IntegerTooBig(a, minus, [])
  {
    assert [ZERO][..0] == [];
  }

  lemma TooBigScan(f: Flags, t: Text, part: IntegerPart, q: nat)
    requires part.start < q <= |t| && AllDigits(part.digits) && IntegerTooBig(f.arithmetic, part.minus, part.digits)
    ensures ScanFraction(f, t, part, q) == Bad(NumberTooBig, part.start)
  {
  }

  /** Fraction digits kept once the significand has more than 53 bits. */
  function RestKept(significant: nat, n: nat): nat {
    if significant >= 17 then 0 else if n < 17 - significant then n else 17 - significant
  }

  lemma RestKeptNext(significant: nat, n: nat)
    ensures significant >= 17 || n == 0 ==> RestKept(significant, n) == 0
    ensures significant >= 17 && n > 0 ==> RestKept(significant, n - 1) == 0
    ensures significant < 17 && n > 0 ==> RestKept(significant, n) == 1 + RestKept(significant + 1, n - 1)
  {
  }

  lemma KeptNext(t: Text, p: nat, end: nat, n: nat, significant: nat)
    requires p < end <= |t| && AllDigits(t[p..end]) && n <= 0x1F_FFFF_FFFF_FFFF
    ensures AllDigits(t[p + 1..end])
    ensures var m := n * 10 + (t[p] - ZERO);
            KeptDigits(n, significant, t[p..end]) ==
                1 + KeptDigits(m, if m != 0 then significant + 1 else significant, t[p + 1..end])
  {
    assert t[p..end][1..] == t[p + 1..end];
  }

  lemma KeptRest(t: Text, p: nat, end: nat, n: nat, significant: nat)
    requires p <= end <= |t| && AllDigits(t[p..end]) && (p < end ==> n > 0x1F_FFFF_FFFF_FFFF)
    ensures KeptDigits(n, significant, t[p..end]) == RestKept(significant, end - p)
  {
  }

  function Limit32(minus: bool): nat {
    if minus then 0x8000_0000 else 0xFFFF_FFFF
  }

  function Limit64(minus: bool): nat {
    if minus then 0x8000_0000_0000_0000 else 0xFFFF_FFFF_FFFF_FFFF
  }

  lemma FirstDigit(t: Text, p: nat)
    requires p < |t| && IsDigit(t[p])
    ensures AllDigits(t[p..p + 1]) && Numeral(t[p..p + 1]) == t[p] - ZERO
    ensures DigitsEnd(t, p) == DigitsEnd(t, p + 1) <= |t|
  {
    assert t[p..p + 1] == [] + [t[p]];
    NumeralAppend([], t[p]);
  }

  /** One more digit read. */
  lemma DigitRead(t: Text, start: nat, k: nat)
    requires start <= k < |t| && AllDigits(t[start..k]) && IsDigit(t[k])
    ensures AllDigits(t[start..k + 1]) && Numeral(t[start..k + 1]) == Numeral(t[start..k]) * 10 + (t[k] - ZERO)
    ensures DigitsEnd(t, k) == DigitsEnd(t, k + 1)
  {
    hide Numeral;
    NumeralAppend(t[start..k], t[k]);
    assert t[start..k] + [t[k]] == t[start..k + 1];
  }

  /** The value of a beginning of a digit string. */
  lemma NumeralSoFar(t: Text, start: nat, k: nat, end: nat)
    requires start <= k <= end <= |t| && AllDigits(t[start..end])
    ensures AllDigits(t[start..k]) && Numeral(t[start..k]) <= Numeral(t[start..end])
  {
    hide Numeral;
    assert t[start..k] == t[start..end][..k - start];
    NumeralGrows(t[start..end], k - start);
  }

  lemma NoDigit(t: Text, p: nat)
    requires !IsDigit(Peek(t, p))
    ensures DigitsEnd(t, p) == p
  {
  }

  lemma DigitsUpTo(t: Text, p: nat)
    requires p <= |t|
    ensures p <= DigitsEnd(t, p) <= |t| && AllDigits(t[p..DigitsEnd(t, p)])
  {
  }

  /** A number about to leave 64 bits has at least eighteen digits. */
  lemma ManyDigits(t: Text, start: nat, k: nat, minus: bool)
    requires start < k < |t| && AllDigits(t[start..k]) && IsDigit(t[k])
    requires Numeral(t[start..k]) * 10 + (t[k] - ZERO) > Limit64(minus)
    ensures k - start - 1 >= 17
  {
    if k - start <= 17 {
      NumeralBound(t[start..k]);
      Power10Grows(k - start, 17);
      Power17();
    }
  }

  lemma {:induction false} Power10Grows(a: nat, b: nat)
    requires a <= b
    ensures Power10(a) <= Power10(b)
    decreases b
  {
    if a < b {
      Power10Grows(a, b - 1);
    }
  }

  lemma Power17()
    ensures Power10(17) == 100_000_000_000_000_000
  {
    assert Power10(4) == 10_000;
    assert Power10(8) == 100_000_000;
    assert Power10(12) == 1_000_000_000_000;
    assert Power10(16) == 10_000_000_000_000_000;
  }

  /** Once the next digit exceeds the limit, the whole numeral does. */
  lemma ExceedsForGood(t: Text, start: nat, k: nat, end: nat, limit: nat)
    requires start < k < end <= |t| && AllDigits(t[start..end]) && AllDigits(t[start..k]) && IsDigit(t[k])
    requires Numeral(t[start..k]) * 10 + (t[k] - ZERO) > limit
    ensures Numeral(t[start..end]) > limit
  {
    hide Numeral;
    NumeralAppend(t[start..k], t[k]);
    assert t[start..k] + [t[k]] == t[start..end][..k + 1 - start];
    NumeralGrows(t[start..end], k + 1 - start);
  }

  /** A numeral that fits is not too big. */
  lemma FittingIsSmall(a: Arithmetic, t: Text, start: nat, end: nat, minus: bool)
    requires start < end <= |t| && AllDigits(t[start..end]) && Numeral(t[start..end]) <= Limit64(minus)
    ensures FitsInteger(minus, Numeral(t[start..end])) && !IntegerTooBig(a, minus, t[start..end])
  {
    hide Numeral;
  }

  /** The digit at `k` takes the numeral out of 64 bits. */
  predicate LeavesInteger(minus: bool, t: Text, start: nat, k: nat) {
    start <= k < |t| && IsDigit(t[k]) && AllDigits(t[start..k]) &&
    !FitsInteger(minus, Numeral(t[start..k]) * 10 + (t[k] - ZERO))
  }

  lemma ConvertedDouble(a: Arithmetic, minus: bool, t: Text, start: nat, k: nat)
    requires start < k < |t| && AllDigits(t[start..k]) && FitsInteger(minus, Numeral(t[start..k])) && IsDigit(t[k])
    requires !FitsInteger(minus, Numeral(t[start..k]) * 10 + (t[k] - ZERO))
    ensures DoubleOf(a, minus, t[start..k]) == (a.cast)(Numeral(t[start..k]))
    ensures !IntegerTooBig(a, minus, t[start..k]) && LeavesInteger(minus, t, start, k)
  {
    hide Numeral;
  }

  lemma AccumulatedDouble(a: Arithmetic, minus: bool, t: Text, start: nat, k: nat)
    requires LeavesInteger(minus, t, start, k) && start < k
    requires !IntegerTooBig(a, minus, t[start..k]) && !ReachesLimit(DoubleOf(a, minus, t[start..k]))
    ensures AllDigits(t[start..k + 1]) && !IntegerTooBig(a, minus, t[start..k + 1])
    ensures DoubleOf(a, minus, t[start..k + 1]) == (a.step)(DoubleOf(a, minus, t[start..k]), t[k] - ZERO)
    ensures k + 1 < |t| && IsDigit(t[k + 1]) ==> LeavesInteger(minus, t, start, k + 1)
  {
    hide Numeral, ReachesLimit;
    DigitRead(t, start, k);
    WithoutLast(t, start, k);
  }

  /** One round of the loop that accumulates a double. */
  lemma DoubleStep(a: Arithmetic, minus: bool, t: Text, start: nat, k: nat)
    requires LeavesInteger(minus, t, start, k) && start < k
    requires !IntegerTooBig(a, minus, t[start..k]) && !ReachesLimit(DoubleOf(a, minus, t[start..k]))
    ensures AllDigits(t[start..k + 1]) && !IntegerTooBig(a, minus, t[start..k + 1])
    ensures DoubleOf(a, minus, t[start..k + 1]) == (a.step)(DoubleOf(a, minus, t[start..k]), t[k] - ZERO)
    ensures k + 1 <= DigitsEnd(t, k + 1) == DigitsEnd(t, k) <= |t|
    ensures IsDigit(Peek(t, k + 1)) ==> LeavesInteger(minus, t, start, k + 1)
  {
    hide Numeral, ReachesLimit, DoubleOf, IntegerTooBig;
    AccumulatedDouble(a, minus, t, start, k);
    DigitsUpTo(t, k + 1);
  }

  lemma WithoutLast(t: Text, start: nat, k: nat)
    requires start <= k < |t|
    ensures var s := t[start..k + 1]; |s| == k + 1 - start && s[..|s| - 1] == t[start..k] && s[|s| - 1] == t[k]
  {
  }

  lemma NotYetEnd(t: Text, p: nat)
    requires IsDigit(Peek(t, p))
    ensures p < DigitsEnd(t, p) == DigitsEnd(t, p + 1)
  {
  }

  lemma DigitsJoin(t: Text, a: nat, b: nat, c: nat)
    requires a <= b <= c <= |t| && AllDigits(t[a..b]) && AllDigits(t[b..c])
    ensures AllDigits(t[a..c])
  {
    assert t[a..c] == t[a..b] + t[b..c];
  }

  /** A numeral in front of whose digit at `k` the limit is reached is too big as a whole. */
  lemma TooBigEarly(a: Arithmetic, minus: bool, t: Text, start: nat, k: nat, end: nat)
    requires start < k < end <= |t| && AllDigits(t[start..end]) && LeavesInteger(minus, t, start, k)
    requires ReachesLimit(DoubleOf(a, minus, t[start..k]))
    ensures IntegerTooBig(a, minus, t[start..end])
  {
    hide Numeral, ReachesLimit, DoubleOf, IntegerTooBig;
    var ds := t[start..end];
    assert ds[..k + 1 - start] == t[start..k + 1];
    TooBigNext(a, minus, t, start, k);
    Rounding.TooBigStays(a, minus, ds, k + 1 - start);
  }

  lemma TooBigNext(a: Arithmetic, minus: bool, t: Text, start: nat, k: nat)
    requires LeavesInteger(minus, t, start, k) && ReachesLimit(DoubleOf(a, minus, t[start..k]))
    ensures AllDigits(t[start..k + 1]) && IntegerTooBig(a, minus, t[start..k + 1])
  {
    hide Numeral, ReachesLimit;
    DigitRead(t, start, k);
    WithoutLast(t, start, k);
  }

  /** The first `i` characters of a \u escape are hexadecimal. */
  predicate HexRun(t: Text, p: nat, i: nat) {
    i == 0 || (HexRun(t, p, i - 1) && IsHex(Peek(t, p + i - 1)))
  }

  function HexPrefix(t: Text, p: nat, i: nat): nat
    requires HexRun(t, p, i)
  {
    if i == 0 then 0 else HexPrefix(t, p, i - 1) * 16 + HexValue(Peek(t, p + i - 1))
  }

  lemma HexPrefixFour(t: Text, p: nat)
    requires HexRun(t, p, 4)
    ensures HexAt(t, p) && HexPrefix(t, p, 4) == Hex4(t, p)
  {
    assert HexRun(t, p, 3) && HexRun(t, p, 2) && HexRun(t, p, 1);
    assert HexPrefix(t, p, 1) == HexValue(Peek(t, p));
    assert HexPrefix(t, p, 2) == HexValue(Peek(t, p)) * 16 + HexValue(Peek(t, p + 1));
    assert HexPrefix(t, p, 3) == HexPrefix(t, p, 2) * 16 + HexValue(Peek(t, p + 2));
  }

  lemma HexRunStops(t: Text, p: nat, i: nat)
    requires i < 4 && HexRun(t, p, i) && !IsHex(Peek(t, p + i))
    ensures !HexAt(t, p)
  {
  }

  lemma CharShrinks(f: Flags, t: Text, p: nat)
    requires Peek(t, p) != QUOTE && ScanChar(f, t, p).Got?
    ensures p + |ScanChar(f, t, p).value| <= ScanChar(f, t, p).pos
  {
  }

  /** The same validation state, seen from the start of a suffix. */
  predicate Shifted(v: Utf8.Validating, w: Utf8.Validating, p: nat) {
    v.ok == w.ok && v.out == w.out && p + v.next == w.next
  }

  lemma CopySuffix(t: Text, s: Text, p: nat, v: Utf8.Validating, w: Utf8.Validating, mask: bv8)
    requires p <= |t| && s == t[p..] && Shifted(v, w, p)
    ensures Shifted(Utf8.Copy(s, v, mask), Utf8.Copy(t, w, mask), p)
  {
  }

  /** Validation looks only ahead, and stays inside the text when it succeeds. */
  lemma ValidateSuffix(t: Text, s: Text, p: nat)
    requires p < |t| && s == t[p..]
    ensures Shifted(Utf8.Validate(s, 0), Utf8.Validate(t, p), p)
    ensures Utf8.Validate(t, p).ok ==> Utf8.Validate(t, p).next <= |t|
  {
    hide Utf8.Copy;
    Utf8.ValidateAgrees(t, p);
    var c := t[p];
    var v, w := Utf8.Validating(true, [c], 1), Utf8.Validating(true, [c], p + 1);
    var lead := if c < 0x80 then 0x70 else Utf8.FirstMask(c);
    CopySuffix(t, s, p, v, w, lead);
    var v1, w1 := Utf8.Copy(s, v, lead), Utf8.Copy(t, w, lead);
    CopySuffix(t, s, p, v1, w1, 0x70);
    CopySuffix(t, s, p, Utf8.Copy(s, v1, 0x70), Utf8.Copy(t, w1, 0x70), 0x70);
  }
}
