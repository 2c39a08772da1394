/** Pretty printing as a transformation of text: a formatter that knows nothing of values or handler calls. */
module Formatting {
  import opened Bytes
  import opened Json
  import opened Printing
  import opened Writing
  import opened WriterLaws

  // ---- The formatter ----

  /** Where the formatter stands: in a string or not, inside which brackets, and whether nothing has followed the
      innermost opening bracket yet. */
  datatype Scan = Scan(mode: Mode, nest: Nest, empty: bool)

  const START: Scan := Scan(Plain, Outermost, false)

  function Brackets(nest: Nest): nat {
    match nest
    case Outermost => 0
    case Within(_, outer) => Brackets(outer) + 1
  }

  /** Items stay on one line. */
  predicate OneLine(style: Style, nest: Nest)
    requires style.Pretty?
  {
    nest.Within? && nest.inArray && style.singleLineArray
  }

  /** A line feed, and then `depth` times `indentCharCount` indent characters. */
  function Break(style: Style, depth: nat): Text
    requires style.Pretty?
  {
    [LF] + seq(depth * style.indentCharCount, i => style.indentChar)
  }

  /** What stands between an opening bracket and the first thing inside. */
  function Margin(style: Style, s: Scan): Text
    requires style.Pretty?
  {
    if !s.empty || OneLine(style, s.nest) then [] else Break(style, Brackets(s.nest))
  }

  /** What is put for one byte of compact text. */
  function Emit(style: Style, s: Scan, c: Byte): Text
    requires style.Pretty?
  {
    if !s.mode.Plain? then [c]
    else if c == COLON then [c, SPACE]
    else if c == COMMA then [c] + if OneLine(style, s.nest) then [SPACE] else Break(style, Brackets(s.nest))
    else if c == RBRACKET || c == RBRACE then
      (if s.empty || OneLine(style, s.nest) then [] else Break(style, Brackets(Outside(s.nest)))) + [c]
    else Margin(style, s) + [c]
  }

  function Follow(s: Scan, c: Byte): Scan {
    var mode := NextMode(s.mode, c);
    if !s.mode.Plain? then s.(mode := mode)
    else if c == LBRACKET || c == LBRACE then Scan(mode, Within(c == LBRACKET, s.nest), true)
    else if c == RBRACKET || c == RBRACE then Scan(mode, Outside(s.nest), false)
    else s.(mode := mode, empty := false)
  }

  function Format(style: Style, t: Text, s: Scan): Text
    requires style.Pretty?
  {
    if t == [] then [] else Emit(style, s, t[0]) + Format(style, t[1..], Follow(s, t[0]))
  }

  function ScanAfter(t: Text, s: Scan): Scan {
    if t == [] then s else ScanAfter(t[1..], Follow(s, t[0]))
  }

  // ---- Pieces of text ----

  /** The formatter turns `t` into `u` and goes from `s` to `r`. */
  predicate Turns(style: Style, t: Text, s: Scan, u: Text, r: Scan)
    requires style.Pretty?
  {
    Format(style, t, s) == u && ScanAfter(t, s) == r
  }

  lemma {:induction false} FormatConcat(style: Style, a: Text, b: Text, s: Scan)
    requires style.Pretty?
    ensures Format(style, a + b, s) == Format(style, a, s) + Format(style, b, ScanAfter(a, s))
    ensures ScanAfter(a + b, s) == ScanAfter(b, ScanAfter(a, s))
    decreases |a|
  {
    hide Emit, Follow;
    if a == [] {
      assert a + b == b;
    } else {
      var r := Follow(s, a[0]);
      assert (a + b)[1..] == a[1..] + b;
      FormatConcat(style, a[1..], b, r);
      Assoc(Emit(style, s, a[0]), Format(style, a[1..], r), Format(style, b, ScanAfter(a, s)));
    }
  }

  lemma TurnsConcat(style: Style, t: Text, s: Scan, u: Text, r: Scan, t': Text, u': Text, r': Scan)
    requires style.Pretty? && Turns(style, t, s, u, r) && Turns(style, t', r, u', r')
    ensures Turns(style, t + t', s, u + u', r')
  {
    hide Format, ScanAfter;
    FormatConcat(style, t, t', s);
  }

  lemma TurnsNone(style: Style, s: Scan)
    requires style.Pretty?
    ensures Turns(style, [], s, [], s)
  {
  }

  lemma TurnsOne(style: Style, s: Scan, c: Byte)
    requires style.Pretty?
    ensures Turns(style, [c], s, Emit(style, s, c), Follow(s, c))
  {
    hide Emit, Follow;
    assert [c][1..] == [];
    assert Format(style, [], Follow(s, c)) == [] && ScanAfter([], Follow(s, c)) == Follow(s, c);
    assert Emit(style, s, c) + [] == Emit(style, s, c);
  }

  /** Nothing is put inside a string. */
  lemma {:induction false} TurnsInside(style: Style, t: Text, s: Scan)
    requires style.Pretty? && Inside(t, s.mode)
    ensures Turns(style, t, s, t, s.(mode := ModeAfter(t, s.mode)))
    decreases |t|
  {
    if t != [] {
      TurnsInside(style, t[1..], Follow(s, t[0]));
      assert t == [t[0]] + t[1..];
    }
  }

  predicate IsMark(c: Byte) {
    c == QUOTE || c == COMMA || c == COLON || c == LBRACKET || c == RBRACKET || c == LBRACE || c == RBRACE
  }

  predicate NoMarks(t: Text) {
    forall i :: 0 <= i < |t| ==> !IsMark(t[i])
  }

  lemma {:induction false} TurnsRest(style: Style, t: Text, s: Scan)
    requires style.Pretty? && NoMarks(t) && s.mode.Plain? && !s.empty
    ensures Turns(style, t, s, t, s)
    decreases |t|
  {
    if t != [] {
      TurnsRest(style, t[1..], s);
      assert t == [t[0]] + t[1..];
    }
  }

  /** A scalar: the margin, if it is the first thing inside brackets, and then itself. */
  ghost predicate IsToken(style: Style, t: Text)
    requires style.Pretty?
  {
    forall s: Scan :: s.mode.Plain? ==> Turns(style, t, s, Margin(style, s) + t, s.(empty := false))
  }

  lemma WordIsToken(style: Style, t: Text)
    requires style.Pretty? && NoMarks(t) && t != []
    ensures IsToken(style, t)
  {
    hide Turns, Margin;
    forall s: Scan | s.mode.Plain?
      ensures Turns(style, t, s, Margin(style, s) + t, s.(empty := false))
    {
      var r := s.(empty := false);
      TurnsOne(style, s, t[0]);
      TurnsRest(style, t[1..], r);
      TurnsConcat(style, [t[0]], s, Margin(style, s) + [t[0]], r, t[1..], t[1..], r);
      assert t == [t[0]] + t[1..];
      Assoc(Margin(style, s), [t[0]], t[1..]);
    }
  }

  lemma StringIsToken(style: Style, x: Text)
    requires style.Pretty? && WritableString(style, x)
    ensures IsToken(style, StringText(style, x))
  {
    hide Turns, Margin, ModeAfter, Inside, Squeeze, Escaped;
    var t := Grammar.CharsText(Escaped(style, x));
    CharsSqueeze(Escaped(style, x));
    forall s: Scan | s.mode.Plain?
      ensures Turns(style, [QUOTE] + t, s, Margin(style, s) + ([QUOTE] + t), s.(empty := false))
    {
      var r := s.(mode := Quoted, empty := false);
      TurnsOne(style, s, QUOTE);
      TurnsInside(style, t, r);
      TurnsConcat(style, [QUOTE], s, Margin(style, s) + [QUOTE], r, t, t, s.(empty := false));
      Assoc(Margin(style, s), [QUOTE], t);
    }
  }

  // ---- The writers ----

  function NestOf(levels: Levels): Nest {
    match levels
    case NoLevel => Outermost
    case Level(_, inArray, outer) => Within(inArray, NestOf(outer))
  }

  function ScanOf(levels: Levels): Scan {
    Scan(Plain, NestOf(levels), levels.Level? && levels.valueCount == 0)
  }

  lemma {:induction false} NestDepth(levels: Levels)
    ensures Brackets(NestOf(levels)) == Depth(levels)
  {
    if levels.Level? {
      NestDepth(levels.outer);
    }
  }

  /** A container inside another has been counted there. */
  predicate Counted(levels: Levels) {
    levels.Level? ==> (levels.outer.Level? ==> levels.outer.valueCount > 0) && Counted(levels.outer)
  }

  /** The text of `p` is the formatted text of `c`. */
  predicate IsFormatted(style: Style, p: Output, c: Output)
    requires style.Pretty?
  {
    Turns(style, c.text, START, p.text, ScanOf(c.levels)) && p.levels == c.levels && p.hasRoot == c.hasRoot &&
    Counted(c.levels)
  }

  predicate BothFormatted(style: Style, p: Option<Output>, c: Option<Output>)
    requires style.Pretty?
  {
    p.Some? == c.Some? && (p.Some? ==> IsFormatted(style, p.value, c.value))
  }

  lemma {:induction false} RepeatIsSeq(c: Byte, n: nat)
    ensures Repeat(c, n) == seq(n, i => c)
  {
    if n > 0 {
      RepeatIsSeq(c, n - 1);
      assert seq(n, i => c) == [c] + seq(n - 1, i => c);
    }
  }

  lemma BreakIsNewLine(style: Style, depth: nat)
    requires style.Pretty?
    ensures NewLine(style, depth) == Break(style, depth)
  {
    RepeatIsSeq(style.indentChar, depth * style.indentCharCount);
  }

  /** What precedes a value: all but the margin comes from the comma or the colon. */
  lemma PrefixTurns(style: Style, levels: Levels) returns (u: Text)
    requires style.Pretty? && levels.Level?
    ensures Turns(style, PrefixText(Plainly(style), levels), ScanOf(levels), u, ScanOf(levels))
    ensures PrefixText(style, levels) == u + Margin(style, ScanOf(levels))
  {
    hide Turns, NewLine, Break;
    var n, s := levels.valueCount, ScanOf(levels);
    NestDepth(levels);
    BreakIsNewLine(style, Depth(levels));
    if n == 0 {
      u := [];
      TurnsNone(style, s);
    } else {
      var mark := if levels.inArray || n % 2 == 0 then COMMA else COLON;
      u := Emit(style, s, mark);
      TurnsOne(style, s, mark);
      assert [mark] + [] == [mark];
    }
  }

  /** A value behind its prefix, up to the end of its first token. */
  lemma ValueTurns(style: Style, p: Output, c: Output, isString: bool, t: Text)
    requires style.Pretty? && IsFormatted(style, p, c) && IsToken(style, t)
    ensures BothFormatted(style, Put(Prefix(style, p, isString), t), Put(Prefix(Plainly(style), c, isString), t))
  {
    hide Turns, Margin, PrefixText;
    var s := ScanOf(c.levels);
    var r := s.(empty := false);
    assert Turns(style, t, s, Margin(style, s) + t, r);
    if c.levels.Level? {
      var u := PrefixTurns(style, c.levels);
      var v := PrefixText(Plainly(style), c.levels);
      TurnsConcat(style, c.text, START, p.text, s, v, u, s);
      TurnsConcat(style, c.text + v, START, p.text + u, s, t, Margin(style, s) + t, r);
      Assoc(p.text, u, Margin(style, s));
      Assoc(p.text + u, Margin(style, s), t);
    } else {
      NoMargin(style, s);
      assert [] + t == t;
      TurnsConcat(style, c.text, START, p.text, s, t, t, r);
    }
  }

  lemma NoMargin(style: Style, s: Scan)
    requires style.Pretty? && !s.empty
    ensures Margin(style, s) == []
  {
  }

  lemma StartTurns(style: Style, p: Output, c: Output, inArray: bool)
    requires style.Pretty? && IsFormatted(style, p, c)
    ensures var t := [if inArray then LBRACKET else LBRACE];
            BothFormatted(style, Put(Push(Prefix(style, p, false), inArray), t),
                          Put(Push(Prefix(Plainly(style), c, false), inArray), t))
  {
    hide Turns, Margin, PrefixText;
    var s := ScanOf(c.levels);
    var t := if inArray then LBRACKET else LBRACE;
    var x := Prefix(style, p, false);
    assert x.Some? ==> NestOf(x.value.levels) == s.nest && Counted(Level(0, inArray, x.value.levels));
    var r := Scan(Plain, Within(inArray, s.nest), true);
    TurnsOne(style, s, t);
    if c.levels.Level? {
      var u := PrefixTurns(style, c.levels);
      var v := PrefixText(Plainly(style), c.levels);
      TurnsConcat(style, c.text, START, p.text, s, v, u, s);
      TurnsConcat(style, c.text + v, START, p.text + u, s, [t], Margin(style, s) + [t], r);
      Assoc(p.text, u, Margin(style, s));
      Assoc(p.text + u, Margin(style, s), [t]);
    } else {
      NoMargin(style, s);
      assert [] + [t] == [t];
      TurnsConcat(style, c.text, START, p.text, s, [t], [t], r);
    }
  }

  lemma EndTurns(style: Style, p: Output, c: Output, inArray: bool)
    requires style.Pretty? && IsFormatted(style, p, c)
    ensures BothFormatted(style, Close(style, p, inArray), Close(Plainly(style), c, inArray))
  {
    hide Turns, NewLine, Break;
    if c.levels.Level? && c.levels.inArray == inArray {
      var s, outer := ScanOf(c.levels), c.levels.outer;
      var t := if inArray then RBRACKET else RBRACE;
      NestDepth(outer);
      BreakIsNewLine(style, Depth(outer));
      TurnsOne(style, s, t);
      assert [] + [t] == [t];
      TurnsConcat(style, c.text, START, p.text, s, [t], Emit(style, s, t), ScanOf(outer));
    }
  }

  lemma StringTurns(style: Style, p: Output, c: Output, isString: bool, x: Text)
    requires style.Pretty? && IsFormatted(style, p, c)
    ensures BothFormatted(style, PutString(style, Prefix(style, p, isString), x),
                          PutString(Plainly(style), Prefix(Plainly(style), c, isString), x))
  {
    hide IsFormatted, IsToken, Prefix;
    if WritableString(style, x) {
      StringIsToken(style, x);
      ValueTurns(style, p, c, isString, StringText(style, x));
    }
  }

  lemma IntegerTurns(style: Style, p: Output, c: Output, n: int)
    requires style.Pretty? && IsFormatted(style, p, c)
    ensures BothFormatted(style, Put(Prefix(style, p, false), IntegerText(n)),
                          Put(Prefix(Plainly(style), c, false), IntegerText(n)))
  {
    hide IsFormatted, IsToken, Prefix;
    IntegerNoMarks(n);
    WordIsToken(style, IntegerText(n));
    ValueTurns(style, p, c, false, IntegerText(n));
  }

  lemma IntegerNoMarks(n: int)
    ensures NoMarks(IntegerText(n)) && IntegerText(n) != []
  {
    hide Decimal;
  }

  lemma WordTurns(style: Style, p: Output, c: Output, word: Text)
    requires style.Pretty? && IsFormatted(style, p, c) && NoMarks(word) && word != []
    ensures BothFormatted(style, Put(Prefix(style, p, false), word), Put(Prefix(Plainly(style), c, false), word))
  {
    hide IsFormatted, IsToken, Prefix;
    WordIsToken(style, word);
    ValueTurns(style, p, c, false, word);
  }

  /** One handler call. */
  lemma WriteTurns(style: Style, p: Output, c: Output, e: Event)
    requires style.Pretty? && IsFormatted(style, p, c)
    ensures BothFormatted(style, Write(style, p, e), Write(Plainly(style), c, e))
  {
    hide IsFormatted, BothFormatted, Prefix, Put, PutString, Push, Close, IntegerText;
    match e
    case ENull => WordTurns(style, p, c, NULL_WORD);
    case EBool(b) => WordTurns(style, p, c, if b then TRUE_WORD else FALSE_WORD);
    case EInt(n) => IntegerTurns(style, p, c, n);
    case EUint(n) => IntegerTurns(style, p, c, n);
    case EInt64(n) => IntegerTurns(style, p, c, n);
    case EUint64(n) => IntegerTurns(style, p, c, n);
    case EDouble(_) => NoneFormatted(style);
    case ERawNumber(x) => StringTurns(style, p, c, false, x);
    case EString(x) => StringTurns(style, p, c, true, x);
    case EKey(x) => StringTurns(style, p, c, true, x);
    case EStartObject => StartTurns(style, p, c, false);
    case EStartArray => StartTurns(style, p, c, true);
    case EEndObject(_) => EndTurns(style, p, c, false);
    case EEndArray(_) => EndTurns(style, p, c, true);
  }

  lemma NoneFormatted(style: Style)
    requires style.Pretty?
    ensures BothFormatted(style, None, None)
  {
  }

  lemma {:induction false} WriteAllTurns(style: Style, p: Output, c: Output, es: seq<Event>)
    requires style.Pretty? && IsFormatted(style, p, c)
    ensures BothFormatted(style, WriteAll(style, p, es), WriteAll(Plainly(style), c, es))
    decreases |es|
  {
    hide IsFormatted, Write;
    if es != [] {
      WriteTurns(style, p, c, es[0]);
      var x, y := Write(style, p, es[0]), Write(Plainly(style), c, es[0]);
      if x.Some? {
        WriteAllTurns(style, x.value, y.value, es[1..]);
      }
    }
  }

  /** For every sequence of handler calls, complete or not: PrettyWriter succeeds exactly if Writer does, and its
      output is the output of Writer, formatted. */
  lemma PrettyIsFormatted(style: Style, es: seq<Event>)
    requires style.Pretty?
    ensures var p, c := WriteAll(style, EMPTY_OUTPUT, es), WriteAll(Compact(style.ascii), EMPTY_OUTPUT, es);
            p.Some? == c.Some? && (p.Some? ==> p.value.text == Format(style, c.value.text, START))
  {
    hide WriteAll, Format;
    StartFormatted(style);
    WriteAllTurns(style, EMPTY_OUTPUT, EMPTY_OUTPUT, es);
  }

  lemma StartFormatted(style: Style)
    requires style.Pretty?
    ensures IsFormatted(style, EMPTY_OUTPUT, EMPTY_OUTPUT)
  {
    TurnsNone(style, START);
  }
}
