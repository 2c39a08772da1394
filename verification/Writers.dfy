/** Writer and PrettyWriter as the objects that writer.h and prettywriter.h declare: every handler call appends to the
    output stream and updates the level stack. */
module Writers {
  import opened Bytes
  import opened Json
  import opened Grammar
  import opened Printing
  import opened Writing
  import opened Strings
  import Scanner
  import Utf8
  import WriterLaws

  /** The room WriteString reserves for each unit of its argument. */
  function UnitBound(style: Style): nat {
    if style.ascii then 12 else 6
  }

  class Writer {
    const style: Style
    var os: Text
    var levels: Levels
    var hasRoot: bool

    function State(): Output
      reads this
    {
      Output(os, levels, hasRoot)
    }

    constructor (style: Style)
      ensures this.style == style && State() == EMPTY_OUTPUT
    {
      this.style := style;
      os := [];
      levels := NoLevel;
      hasRoot := false;
    }

    predicate IsComplete()
      reads this
      ensures IsComplete() == WriterLaws.IsComplete(State())
    {
      hasRoot && levels.NoLevel?
    }

    method Put(c: Byte)
      modifies `os
      ensures os == old(os) + [c]
    {
      os := os + [c];
    }

    /** WriteIndent: PutN of the indentation of the open levels. */
    method WriteIndent()
      requires style.Pretty?
      modifies `os
      ensures os == old(os) + Repeat(style.indentChar, Depth(levels) * style.indentCharCount)
    {
      var n, count := 0, Depth(levels) * style.indentCharCount;
      while n < count
        invariant n <= count && os == old(os) + Repeat(style.indentChar, n)
      {
        Put(style.indentChar);
        n := n + 1;
      }
    }

    method NewLine()
      requires style.Pretty?
      modifies `os
      ensures os == old(os) + Printing.NewLine(style, Depth(levels))
    {
      Put(LF);
      WriteIndent();
    }

    /** The text part of Writer::Prefix. */
    method PlainPrefix()
      requires style.Compact? && levels.Level?
      modifies `os
      ensures os == old(os) + PrefixText(style, levels)
    {
      if levels.valueCount > 0 {
        if levels.inArray {
          Put(COMMA);
        } else {
          Put(if levels.valueCount % 2 == 0 then COMMA else COLON);
        }
      }
    }

    /** The text part of PrettyPrefix. */
    method PrettyPrefix()
      requires style.Pretty? && levels.Level?
      modifies `os
      ensures os == old(os) + PrefixText(style, levels)
    {
      hide Printing.NewLine;
      if levels.inArray {
        if levels.valueCount > 0 {
          Put(COMMA);
          if style.singleLineArray {
            Put(SPACE);
          }
        }
        if !style.singleLineArray {
          NewLine();
        }
      } else if levels.valueCount % 2 == 0 {
        if levels.valueCount > 0 {
          Put(COMMA);
        }
        NewLine();
      } else {
        Put(COLON);
        Put(SPACE);
      }
    }

    /** Prefix and PrettyPrefix, behind their assertions. */
    method Prefix(isString: bool)
      requires Writing.Prefix(style, State(), isString).Some?
      modifies this
      ensures Writing.Prefix(style, old(State()), isString) == Some(State())
    {
      hide PrefixText;
      if levels.Level? {
        if style.Compact? {
          PlainPrefix();
        } else {
          PrettyPrefix();
        }
        levels := levels.(valueCount := levels.valueCount + 1);
      } else {
        hasRoot := true;
      }
    }

    /** The loop of WriteString over bytes, for a target that supports Unicode. */
    method WriteBytes(s: Text)
      requires !style.ascii
      modifies `os
      ensures os == old(os) + StringText(style, s)
    {
      hide EscapeByte, CharText;
      Put(QUOTE);
      ghost var start := os;
      var i := 0;
      assert s[0..] == s;
      while i < |s|
        invariant i <= |s| && os + CharsText(EscapeBytes(s[i..])) == start + CharsText(EscapeBytes(s))
      {
        EscapeFirst(s[i..]);
        assert s[i..][1..] == s[i + 1..];
        Assoc(os, CharText(EscapeByte(s[i])), CharsText(EscapeBytes(s[i + 1..])));
        WriteByte(s[i]);
        i := i + 1;
      }
      assert EscapeBytes([]) == [];
      Put(QUOTE);
      Assoc(old(os), [QUOTE], CharsText(EscapeBytes(s)));
    }

    /** One byte, escaped where the table says so. */
    method WriteByte(c: Byte)
      modifies `os
      ensures os == old(os) + CharText(EscapeByte(c))
    {
      var e := EscapeLetter(c);
      if e != NUL {
        Put(BACKSLASH);
        Put(e);
        if e == Scanner.LETTER_U {
          Put(ZERO);
          Put(ZERO);
          Put(HexDigit(c / 16));
          Put(HexDigit(c % 16));
          ByteHex(c);
        }
      } else {
        Put(c);
      }
    }

    /** The loop of WriteString over code points, for a target without Unicode. Where it fails, the opening quote and
        the characters before the first ill-formed one have been put. */
    method WritePoints(t: Text, length: nat) returns (ok: bool)
      requires style.ascii && length <= |t|
      modifies `os
      ensures ok == Covered(t, length).Some?
      ensures ok ==>
                WritableString(style, t[..Covered(t, length).value]) &&
                os == old(os) + StringText(style, t[..Covered(t, length).value])
      ensures !ok ==> Broken(t, length, old(os), os)
      ensures |os| <= |old(os)| + 2 + 12 * length
    {
      hide EscapePoints, EscapePoint, CharText, Body, Utf8.Decode, Utf8.IsUtf8, Covered;
      Put(QUOTE);
      ghost var start := os;
      var i := 0;
      assert t[..0] == [];
      Nothing();
      CoveredFirst(t, length);
      while i < length
        invariant i <= |t| && Utf8.IsUtf8(t[..i])
        invariant os == start + Body(EscapePoints(t[..i])) && |os| <= |start| + 12 * Min(i, length)
        invariant Covered(t, length) == CoveredFrom(t, length, i)
        decreases |t| - i
      {
        var rest := t[i..];
        var d := Utf8.Decode(rest, 0);
        Utf8.DecodeExact(rest, 0);
        CoveredNext(t, length, i);
        if !d.ok {
          assert Stops(t, length, i, old(os), os);
          return false;
        }
        Utf8.DecodeThenEncode(rest, 0);
        PointTaken(t, i);
        Assoc(start, Body(EscapePoints(t[..i])), CharText(EscapePoint(d.codepoint)));
        WritePoint(d.codepoint);
        i := i + d.next;
      }
      Put(QUOTE);
      BodyQuoted(EscapePoints(t[..i]));
      Assoc(start, Body(EscapePoints(t[..i])), [QUOTE]);
      Assoc(old(os), [QUOTE], CharsText(EscapePoints(t[..i])));
      ok := true;
    }

    /** One code point: as a byte, as one escape, or as a surrogate pair. */
    method WritePoint(c: Utf8.CodePoint)
      requires Utf8.IsScalar(c)
      modifies `os
      ensures os == old(os) + CharText(EscapePoint(c)) && |os| <= |old(os)| + 12
    {
      hide EscapeByte, Hex4Digits;
      if c < 0x80 {
        WriteByte(c);
      } else if c <= 0xFFFF {
        os := os + ([BACKSLASH, Scanner.LETTER_U] + Hex4Digits(c));
      } else {
        var s := c - 0x10000;
        SurrogateSplit(s);
        var lead, trail := s / 0x400 + 0xD800, s % 0x400 + 0xDC00;
        os := os + ([BACKSLASH, Scanner.LETTER_U] + Hex4Digits(lead) + [BACKSLASH, Scanner.LETTER_U] +
            Hex4Digits(trail));
      }
    }

    /** WriteString of the `length` units at `t`: exact, and never beyond the room it reserved. */
    method WriteString(t: Text, length: nat) returns (ok: bool)
      requires length <= |t|
      modifies `os
      ensures ok == Written(style, t, length).Some?
      ensures ok ==>
                WritableString(style, Written(style, t, length).value) &&
                os == old(os) + StringText(style, Written(style, t, length).value)
      ensures !ok ==> Broken(t, length, old(os), os)
      ensures |os| <= |old(os)| + 2 + UnitBound(style) * length
    {
      hide EscapeBytes, EscapePoints, CharsText, Covered, Broken;
      if style.ascii {
        ok := WritePoints(t, length);
      } else {
        WriteBytes(t[..length]);
        EscapeBound(t[..length]);
        ok := true;
      }
    }

    /** Null, Bool, Int, Uint, Int64 and Uint64. */
    method Scalar(e: Event) returns (ok: bool)
      requires e.ENull? || e.EBool? || e.EInt? || e.EUint? || e.EInt64? || e.EUint64?
      requires Writing.Prefix(style, State(), false).Some?
      modifies this
      ensures ok && Write(style, old(State()), e) == Some(State())
    {
      hide Writing.Prefix, IntegerText;
      Prefix(false);
      os := os + match e {
        case ENull => NULL_WORD
        case EBool(b) => if b then TRUE_WORD else FALSE_WORD
        case _ => IntegerText(IntegerOf(e))
      };
      ok := true;
    }

    /** RawNumber, String and Key. */
    method StringEvent(e: Event, s: Text) returns (ok: bool)
      requires (e == ERawNumber(s) && Writing.Prefix(style, State(), false).Some?) ||
               ((e == EString(s) || e == EKey(s)) && Writing.Prefix(style, State(), true).Some?)
      modifies this
      ensures Write(style, old(State()), e) == if ok then Some(State()) else None
      ensures ok == WritableString(style, s)
    {
      hide Writing.Prefix, StringText, WritableString, Written, Broken;
      Prefix(!e.ERawNumber?);
      assert s[..|s|] == s;
      WrittenExact(style, s, |s|);
      ok := WriteString(s, |s|);
    }

    /** StartObject and StartArray. */
    method Start(inArray: bool) returns (ok: bool)
      requires Writing.Prefix(style, State(), false).Some?
      modifies this
      ensures ok && Write(style, old(State()), if inArray then EStartArray else EStartObject) == Some(State())
    {
      hide Writing.Prefix;
      Prefix(false);
      levels := Level(0, inArray, levels);
      Put(if inArray then LBRACKET else LBRACE);
      ok := true;
    }

    /** EndObject and EndArray, behind their assertions. */
    method End(inArray: bool) returns (ok: bool)
      requires levels.Level? && levels.inArray == inArray
      modifies this
      ensures ok && Close(style, old(State()), inArray) == Some(State())
    {
      hide Printing.NewLine;
      var empty := levels.valueCount == 0;
      levels := levels.outer;
      if style.Pretty? && !empty && !(inArray && style.singleLineArray) {
        NewLine();
      }
      ghost var blank := if empty then [] else CloseBlank(style, Depth(levels), inArray);
      assert os == old(os) + blank;
      Assoc(old(os), blank, [if inArray then RBRACKET else RBRACE]);
      Put(if inArray then RBRACKET else RBRACE);
      ok := true;
    }
  }

  lemma EscapeFirst(s: Text)
    requires s != []
    ensures CharsText(EscapeBytes(s)) == CharText(EscapeByte(s[0])) + CharsText(EscapeBytes(s[1..]))
  {
    hide EscapeByte, CharText;
    assert EscapeBytes(s)[1..] == EscapeBytes(s[1..]);
  }

  /** The first character that is none begins at `p`, and what was before it has been put. */
  predicate Stops(t: Text, length: nat, p: nat, before: Text, os: Text) {
    p < length <= |t| && !Utf8.Decode(t[p..], 0).ok && Utf8.IsUtf8(t[..p]) &&
        os == before + [QUOTE] + Body(EscapePoints(t[..p]))
  }

  ghost predicate Broken(t: Text, length: nat, before: Text, os: Text) {
    exists p: nat :: Stops(t, length, p, before, os)
  }

  lemma Nothing()
    ensures Utf8.IsUtf8([]) && Body(EscapePoints([])) == []
  {
  }

  /** Covered, once the units before `i` have been taken. */
  function CoveredFrom(t: Text, length: nat, i: nat): Option<nat>
    requires i <= |t| && length <= |t|
  {
    if i >= length then Some(i)
    else
      var r := Covered(t[i..], length - i);
      if r.None? then None else Some(i + r.value)
  }

  lemma CoveredFirst(t: Text, length: nat)
    requires length <= |t|
    ensures CoveredFrom(t, length, 0) == Covered(t, length)
  {
    assert t[0..] == t;
  }

  lemma CoveredNext(t: Text, length: nat, i: nat)
    requires i < length <= |t|
    ensures var d := Utf8.Decode(t[i..], 0);
            && (!d.ok ==> CoveredFrom(t, length, i) == None)
            && (d.ok ==> i + d.next <= |t| && CoveredFrom(t, length, i) == CoveredFrom(t, length, i + d.next))
  {
    hide Utf8.Decode;
    var d := Utf8.Decode(t[i..], 0);
    Utf8.DecodeExact(t[i..], 0);
    if d.ok {
      assert t[i..][d.next..] == t[i + d.next..];
    }
  }

  /** One more character of `t` taken. */
  lemma PointTaken(t: Text, i: nat)
    requires i < |t| && Utf8.IsUtf8(t[..i]) && Utf8.Decode(t[i..], 0).ok
    ensures var d := Utf8.Decode(t[i..], 0);
            && i + d.next <= |t| && d.codepoint <= 0x10FFFF && Utf8.IsScalar(d.codepoint) &&
               Utf8.IsUtf8(t[..i + d.next])
            && Body(EscapePoints(t[..i + d.next])) == Body(EscapePoints(t[..i])) + CharText(EscapePoint(d.codepoint))
  {
    hide Utf8.Decode, EscapePoints, EscapePoint, Body, Utf8.IsUtf8;
    var rest := t[i..];
    var d := Utf8.Decode(rest, 0);
    Utf8.DecodeExact(rest, 0);
    var c := t[i..i + d.next];
    assert rest == c + t[i + d.next..];
    CharAlone(rest, c, t[i + d.next..]);
    assert t[..i + d.next] == t[..i] + c;
    PointAppended(t[..i], c);
    BodyAppended(EscapePoints(t[..i]), EscapePoint(d.codepoint));
  }

  /** A character decodes alone as it does in front of others. */
  lemma CharAlone(rest: Text, c: Text, behind: Text)
    requires c != [] && rest == c + behind && Utf8.Decode(rest, 0).ok && Utf8.Decode(rest, 0).next == |c|
    ensures Utf8.Decode(c, 0) == Utf8.Decode(rest, 0)
  {
    hide Utf8.Decode, Utf8.IsUtf8Char;
    Utf8.DecodeExact(rest, 0);
    Utf8.DecodeExact(c, 0);
    assert rest[0..|c|] == c && c[0..|c|] == c;
    DecodeAlone(c, behind);
  }

  /** The four digits of a byte. */
  lemma ByteHex(c: Byte)
    ensures Hex4Digits(c) == [ZERO, ZERO, HexDigit(c / 16), HexDigit(c % 16)]
  {
    assert c / 16 % 16 == c / 16;
  }
}
