/** Writer and PrettyWriter as handlers: one step per event, the text of a whole value, and completeness of the
    output. */
module Writing {
  import opened Bytes
  import opened Json
  import opened Grammar
  import opened Printing

  /** level_stack_, innermost level first. */
  datatype Levels = NoLevel | Level(valueCount: nat, inArray: bool, outer: Levels)

  datatype Output = Output(text: Text, levels: Levels, hasRoot: bool)

  const EMPTY_OUTPUT: Output := Output([], NoLevel, false)

  function Depth(levels: Levels): nat {
    match levels
    case NoLevel => 0
    case Level(_, _, outer) => Depth(outer) + 1
  }

  /** What Prefix and PrettyPrefix put before a value inside a container. */
  function PrefixText(style: Style, levels: Levels): Text
    requires levels.Level?
  {
    var n, level := levels.valueCount, Depth(levels);
    if levels.inArray then
      if n > 0 then [COMMA] + CommaBlank(style, level, true) else OpenBlank(style, level, true)
    else if n % 2 == 1 then [COLON] + ColonBlank(style)
    else if n > 0 then [COMMA] + CommaBlank(style, level, false) else OpenBlank(style, level, false)
  }

  /** Prefix: None where its assertions fail, that is for a second root or a member name that is no string. */
  function Prefix(style: Style, w: Output, isString: bool): Option<Output> {
    match w.levels
    case NoLevel => if w.hasRoot then None else Some(w.(hasRoot := true))
    case Level(n, inArray, outer) =>
      if !inArray && n % 2 == 0 && !isString then None
      else Some(w.(text := w.text + PrefixText(style, w.levels), levels := Level(n + 1, inArray, outer)))
  }

  function Put(w: Option<Output>, s: Text): Option<Output> {
    if w.None? then None else Some(w.value.(text := w.value.text + s))
  }

  function Push(w: Option<Output>, inArray: bool): Option<Output> {
    if w.None? then None else Some(w.value.(levels := Level(0, inArray, w.value.levels)))
  }

  function StringText(style: Style, s: Text): Text
    requires WritableString(style, s)
  {
    [QUOTE] + CharsText(Escaped(style, s))
  }

  /** WriteString behind a prefix. */
  function PutString(style: Style, w: Option<Output>, s: Text): Option<Output> {
    if WritableString(style, s) then Put(w, StringText(style, s)) else None
  }

  function IntegerText(n: int): Text {
    (if n < 0 then [MINUS] else []) + Decimal(if n < 0 then -n else n)
  }

  /** EndObject and EndArray. */
  function Close(style: Style, w: Output, inArray: bool): Option<Output> {
    if w.levels.NoLevel? || w.levels.inArray != inArray then None
    else
      var outer := w.levels.outer;
      var blank := if w.levels.valueCount == 0 then [] else CloseBlank(style, Depth(outer), inArray);
      Some(w.(text := w.text + (blank + [if inArray then RBRACKET else RBRACE]), levels := outer))
  }

  /** One handler call; None where it asserts or returns false. Doubles are not printed by this model. */
  function Write(style: Style, w: Output, e: Event): Option<Output> {
    match e
    case ENull => Put(Prefix(style, w, false), NULL_WORD)
    case EBool(b) => Put(Prefix(style, w, false), if b then TRUE_WORD else FALSE_WORD)
    case EInt(n) => Put(Prefix(style, w, false), IntegerText(n))
    case EUint(n) => Put(Prefix(style, w, false), IntegerText(n))
    case EInt64(n) => Put(Prefix(style, w, false), IntegerText(n))
    case EUint64(n) => Put(Prefix(style, w, false), IntegerText(n))
    case EDouble(_) => None
    case ERawNumber(s) => PutString(style, Prefix(style, w, false), s)
    case EString(s) => PutString(style, Prefix(style, w, true), s)
    case EKey(s) => PutString(style, Prefix(style, w, true), s)
    case EStartObject => Put(Push(Prefix(style, w, false), false), [LBRACE])
    case EStartArray => Put(Push(Prefix(style, w, false), true), [LBRACKET])
    case EEndObject(_) => Close(style, w, false)
    case EEndArray(_) => Close(style, w, true)
  }

  function WriteAll(style: Style, w: Output, es: seq<Event>): Option<Output>
    decreases |es|
  {
    if es == [] then Some(w)
    else
      var x := Write(style, w, es[0]);
      if x.None? then None else WriteAll(style, x.value, es[1..])
  }

  lemma {:induction false} WriteConcat(style: Style, w: Output, a: seq<Event>, b: seq<Event>)
    ensures WriteAll(style, w, a + b) ==
            if WriteAll(style, w, a).None? then None else WriteAll(style, WriteAll(style, w, a).value, b)
    decreases |a|
  {
    hide Write;
    if a == [] {
      assert a + b == b;
    } else {
      assert (a + b)[1..] == a[1..] + b;
      var x := Write(style, w, a[0]);
      if x.Some? {
        WriteConcat(style, x.value, a[1..], b);
      }
    }
  }

  lemma WriteOne(style: Style, w: Output, e: Event)
    ensures WriteAll(style, w, [e]) == Write(style, w, e)
  {
    hide Write;
    assert [e][1..] == [];
  }

  lemma WriteFirst(style: Style, w: Output, e: Event, es: seq<Event>)
    ensures WriteAll(style, w, [e] + es) == if Write(style, w, e).None? then None
            else WriteAll(style, Write(style, w, e).value, es)
  {
    hide Write;
    assert ([e] + es)[1..] == es;
  }

  /** A whole value puts its prefix and its text, and leaves the levels as the prefix left them. */
  lemma {:induction false} ValueWritten(style: Style, w: Output, v: JSON)
    requires Writable(style, v) && Prefix(style, w, v.String?).Some?
    ensures WriteAll(style, w, Events(v)) ==
            Put(Prefix(style, w, v.String?), TreeText(Layout(style, Depth(w.levels), v)))
    decreases v, 1
  {
    hide Prefix, WriteAll, TreeText, NumberEvent, IntegerText, StringText, Close;
    var p := Prefix(style, w, v.String?);
    match v
    case Null =>
      WriteOne(style, w, ENull);
      ScalarText(style, Depth(w.levels), v);
    case Bool(b) =>
      WriteOne(style, w, EBool(b));
      ScalarText(style, Depth(w.levels), v);
    case Number(n) =>
      WriteOne(style, w, NumberEvent(n));
      NumberWritten(style, w, n);
      ScalarText(style, Depth(w.levels), v);
    case String(s) =>
      WriteOne(style, w, EString(s));
      ScalarText(style, Depth(w.levels), v);
    case Array(vs) => ArrayWritten(style, w, vs);
    case Object(ms) => ObjectWritten(style, w, ms);
  }

  lemma NumberWritten(style: Style, w: Output, n: Int64)
    ensures Write(style, w, NumberEvent(n)) == Put(Prefix(style, w, false), IntegerText(n))
  {
    hide Prefix, IntegerText, Put;
  }

  /** The text of the tree of a value that is no container. */
  lemma ScalarText(style: Style, level: nat, v: JSON)
    requires Writable(style, v) && !v.Array? && !v.Object?
    ensures TreeText(Layout(style, level, v)) ==
            match v
            case Null => NULL_WORD
            case Bool(b) => if b then TRUE_WORD else FALSE_WORD
            case Number(n) => IntegerText(n)
            case String(s) => StringText(style, s)
  {
    hide Decimal, Escaped;
    if v.Number? {
      var n := IntegerTree(v.n);
      assert NumericText(n) == SignText(n.minus) + (n.integer + ([] + []));
    }
  }

  lemma {:induction false} ArrayWritten(style: Style, w: Output, vs: seq<JSON>)
    requires AllWritable(style, vs) && Prefix(style, w, false).Some?
    ensures WriteAll(style, w, Events(Array(vs))) ==
            Put(Prefix(style, w, false), TreeText(Layout(style, Depth(w.levels), Array(vs))))
    decreases vs, 1
  {
    hide Prefix, WriteAll, Layout, LayoutItems, TreeText, ItemsText, OpenBlank, ElementEvents;
    var p := Prefix(style, w, false).value;
    PrefixDepth(style, w, false);
    var x := Output(p.text + [LBRACKET], Level(0, true, p.levels), p.hasRoot);
    var end := EEndArray(|vs|);
    Assoc([EStartArray], ElementEvents(vs), [end]);
    WriteFirst(style, w, EStartArray, ElementEvents(vs) + [end]);
    if vs == [] {
      NoElements(end);
      WriteOne(style, x, end);
      EmptyArrayText(style, Depth(w.levels));
      Assoc(p.text, [LBRACKET], [] + [RBRACKET]);
    } else {
      ElementsWritten(style, x, vs, end);
      ArrayText(style, Depth(w.levels), vs);
      Assoc(p.text, [LBRACKET], OpenBlank(style, Depth(p.levels) + 1, true));
      Assoc(p.text, [LBRACKET] + OpenBlank(style, Depth(p.levels) + 1, true),
          ItemsText(LayoutItems(style, Depth(w.levels) + 1, vs)));
      Assoc([LBRACKET], OpenBlank(style, Depth(p.levels) + 1, true),
          ItemsText(LayoutItems(style, Depth(w.levels) + 1, vs)));
    }
  }

  lemma NoElements(end: Event)
    ensures ElementEvents([]) + [end] == [end]
  {
  }

  lemma EmptyArrayText(style: Style, level: nat)
    ensures TreeText(Layout(style, level, Array([]))) == [LBRACKET] + ([] + [RBRACKET])
  {
  }

  lemma ArrayText(style: Style, level: nat, vs: seq<JSON>)
    requires AllWritable(style, vs) && vs != []
    ensures TreeText(Layout(style, level, Array(vs))) ==
            [LBRACKET] + (OpenBlank(style, level + 1, true) + ItemsText(LayoutItems(style, level + 1, vs)))
  {
    hide LayoutItems, ItemsText, OpenBlank;
  }

  lemma PrefixDepth(style: Style, w: Output, isString: bool)
    requires Prefix(style, w, isString).Some?
    ensures Depth(Prefix(style, w, isString).value.levels) == Depth(w.levels)
  {
  }

  /** The elements and the end of an array: what stands before the first of them depends on the count. */
  lemma {:induction false} ElementsWritten(style: Style, w: Output, vs: seq<JSON>, end: Event)
    requires AllWritable(style, vs) && vs != [] && w.levels.Level? && w.levels.inArray && end.EEndArray?
    ensures WriteAll(style, w, ElementEvents(vs) + [end]) ==
            Some(Output(w.text + PrefixText(style, w.levels) + ItemsText(LayoutItems(style, Depth(w.levels), vs)),
                w.levels.outer, w.hasRoot))
    decreases vs, 0
  {
    hide WriteAll, PrefixText, Layout, TreeText, Events, CloseBlank, CommaBlank;
    var level, v, rest := Depth(w.levels), vs[0], vs[1..];
    var lead, text := PrefixText(style, w.levels), TreeText(Layout(style, level, v));
    ValueWritten(style, w, v);
    var x := Output(w.text + lead + text, Level(w.levels.valueCount + 1, true, w.levels.outer), w.hasRoot);
    Assoc(Events(v), ElementEvents(rest), [end]);
    WriteConcat(style, w, Events(v), ElementEvents(rest) + [end]);
    assert WriteAll(style, w, ElementEvents(vs) + [end]) == WriteAll(style, x, ElementEvents(rest) + [end]);
    if |vs| == 1 {
      assert ElementEvents(rest) + [end] == [end];
      WriteOne(style, x, end);
      Assoc(w.text + lead, text, CloseBlank(style, level - 1, true) + [RBRACKET]);
    } else {
      ElementsWritten(style, x, rest, end);
      var comma, items := CommaBlank(style, level, true), ItemsText(LayoutItems(style, level, rest));
      CommaPrefix(style, x.levels);
      Regroup(w.text + lead, text, [COMMA], comma, items);
    }
  }

  lemma CommaPrefix(style: Style, levels: Levels)
    requires levels.Level? && levels.valueCount > 0 && (levels.inArray || levels.valueCount % 2 == 0)
    ensures PrefixText(style, levels) == [COMMA] + CommaBlank(style, Depth(levels), levels.inArray)
  {
  }

  lemma Regroup(a: Text, b: Text, c: Text, d: Text, e: Text)
    ensures a + b + (c + d) + e == a + (b + ([] + (c + (d + e))))
  {
    Assoc(a + b, c + d, e);
    Assoc(c, d, e);
    Assoc(a, b, c + (d + e));
    assert [] + (c + (d + e)) == c + (d + e);
  }

  lemma {:induction false} ObjectWritten(style: Style, w: Output, ms: seq<Member>)
    requires MembersWritable(style, ms) && Prefix(style, w, false).Some?
    ensures WriteAll(style, w, Events(Object(ms))) ==
            Put(Prefix(style, w, false), TreeText(Layout(style, Depth(w.levels), Object(ms))))
    decreases ms, 1
  {
    hide Prefix, WriteAll, Layout, LayoutPairs, TreeText, PairsText, OpenBlank, MemberEvents;
    var p := Prefix(style, w, false).value;
    PrefixDepth(style, w, false);
    var x := Output(p.text + [LBRACE], Level(0, false, p.levels), p.hasRoot);
    var end := EEndObject(|ms|);
    Assoc([EStartObject], MemberEvents(ms), [end]);
    WriteFirst(style, w, EStartObject, MemberEvents(ms) + [end]);
    if ms == [] {
      NoMembers(end);
      WriteOne(style, x, end);
      EmptyObjectText(style, Depth(w.levels));
      Assoc(p.text, [LBRACE], [] + [RBRACE]);
    } else {
      MembersWritten(style, x, ms, end);
      ObjectText(style, Depth(w.levels), ms);
      Assoc(p.text, [LBRACE], OpenBlank(style, Depth(p.levels) + 1, false));
      Assoc(p.text, [LBRACE] + OpenBlank(style, Depth(p.levels) + 1, false),
          PairsText(LayoutPairs(style, Depth(w.levels) + 1, ms)));
      Assoc([LBRACE], OpenBlank(style, Depth(p.levels) + 1, false),
          PairsText(LayoutPairs(style, Depth(w.levels) + 1, ms)));
    }
  }

  lemma NoMembers(end: Event)
    ensures MemberEvents([]) + [end] == [end]
  {
  }

  lemma EmptyObjectText(style: Style, level: nat)
    ensures TreeText(Layout(style, level, Object([]))) == [LBRACE] + ([] + [RBRACE])
  {
  }

  lemma ObjectText(style: Style, level: nat, ms: seq<Member>)
    requires MembersWritable(style, ms) && ms != []
    ensures TreeText(Layout(style, level, Object(ms))) ==
            [LBRACE] + (OpenBlank(style, level + 1, false) + PairsText(LayoutPairs(style, level + 1, ms)))
  {
    hide LayoutPairs, PairsText, OpenBlank;
  }

  /** A name and its value. */
  lemma {:induction false} MemberWritten(style: Style, w: Output, m: Member)
    requires WritableString(style, m.name) && Writable(style, m.value) && w.levels.Level? && !w.levels.inArray &&
             w.levels.valueCount % 2 == 0
    ensures WriteAll(style, w, [EKey(m.name)] + Events(m.value)) ==
            Some(Output(w.text + PrefixText(style, w.levels) + StringText(style, m.name) +
                ([COLON] + ColonBlank(style)) +
                          TreeText(Layout(style, Depth(w.levels), m.value)),
                        Level(w.levels.valueCount + 2, false, w.levels.outer), w.hasRoot))
    decreases m, 2
  {
    hide WriteAll, PrefixText, Layout, TreeText, Events, StringText, ColonBlank;
    WriteFirst(style, w, EKey(m.name), Events(m.value));
    var x := Output(w.text + PrefixText(style, w.levels) + StringText(style, m.name),
        Level(w.levels.valueCount + 1, false, w.levels.outer), w.hasRoot);
    assert Write(style, w, EKey(m.name)) == Some(x);
    ColonPrefix(style, x.levels);
    ValueWritten(style, x, m.value);
  }

  lemma ColonPrefix(style: Style, levels: Levels)
    requires levels.Level? && !levels.inArray && levels.valueCount % 2 == 1
    ensures PrefixText(style, levels) == [COLON] + ColonBlank(style)
  {
  }

  lemma FirstMember(ms: seq<Member>)
    requires ms != []
    ensures MemberEvents(ms) == [EKey(ms[0].name)] + Events(ms[0].value) + MemberEvents(ms[1..])
  {
  }

  lemma {:induction false} MembersWritten(style: Style, w: Output, ms: seq<Member>, end: Event)
    requires MembersWritable(style, ms) && ms != [] && w.levels.Level? && !w.levels.inArray &&
             w.levels.valueCount % 2 == 0 && end.EEndObject?
    ensures WriteAll(style, w, MemberEvents(ms) + [end]) ==
            Some(Output(w.text + PrefixText(style, w.levels) + PairsText(LayoutPairs(style, Depth(w.levels), ms)),
                w.levels.outer, w.hasRoot))
    decreases ms, 0
  {
    hide WriteAll, PrefixText, Layout, TreeText, Events, MemberEvents, CloseBlank, CommaBlank, StringText, ColonBlank,
         PairText;
    var level, m, rest := Depth(w.levels), ms[0], ms[1..];
    var lead, text := PrefixText(style, w.levels), TreeText(Layout(style, level, m.value));
    MemberWritten(style, w, m);
    var pair := StringText(style, m.name) + ([COLON] + ColonBlank(style)) + text;
    var x := Output(w.text + lead + StringText(style, m.name) + ([COLON] + ColonBlank(style)) + text,
        Level(w.levels.valueCount + 2, false, w.levels.outer), w.hasRoot);
    Assoc(w.text + lead, StringText(style, m.name), [COLON] + ColonBlank(style));
    Assoc(w.text + lead, StringText(style, m.name) + ([COLON] + ColonBlank(style)), text);
    assert x.text == w.text + lead + pair;
    FirstMember(ms);
    Assoc([EKey(m.name)] + Events(m.value), MemberEvents(rest), [end]);
    WriteConcat(style, w, [EKey(m.name)] + Events(m.value), MemberEvents(rest) + [end]);
    assert WriteAll(style, w, MemberEvents(ms) + [end]) == WriteAll(style, x, MemberEvents(rest) + [end]);
    if |ms| == 1 {
      NoMembers(end);
      WriteOne(style, x, end);
      var close := CloseBlank(style, level - 1, false);
      PairTextOf(style, level, m, close);
      Assoc(w.text + lead, pair, close + [RBRACE]);
      Assoc(pair, close, [RBRACE]);
    } else {
      MembersWritten(style, x, rest, end);
      var comma, pairs := CommaBlank(style, level, false), PairsText(LayoutPairs(style, level, rest));
      CommaPrefix(style, x.levels);
      PairTextOf(style, level, m, []);
      assert pair + [] == pair;
      Assoc(w.text + lead + pair, [COMMA] + comma, pairs);
      Assoc([COMMA], comma, pairs);
      Assoc(w.text + lead, pair, [COMMA] + (comma + pairs));
    }
  }

  lemma PairTextOf(style: Style, level: nat, m: Member, after: Text)
    requires WritableString(style, m.name) && Writable(style, m.value)
    ensures var value := Layout(style, level, m.value);
            PairText(Pair(Escaped(style, m.name), [], ColonBlank(style), value, after)) ==
            StringText(style, m.name) + ([COLON] + ColonBlank(style)) + TreeText(value) + after
  {
    hide Layout, TreeText, CharsText, Escaped, ColonBlank;
    var name, blank, text := CharsText(Escaped(style, m.name)), ColonBlank(style),
        TreeText(Layout(style, level, m.value));
    assert [] + ([COLON] + (blank + (text + after))) == [COLON] + (blank + (text + after));
    Assoc([QUOTE], name, [COLON] + (blank + (text + after)));
    Assoc([COLON], blank, text + after);
    Assoc([QUOTE] + name, [COLON] + blank, text + after);
    Assoc([QUOTE] + name + ([COLON] + blank), text, after);
  }

  /** From a fresh writer the events of a value print exactly its tree, and leave a complete output. */
  lemma DocumentWritten(style: Style, v: JSON)
    requires Writable(style, v)
    ensures WriteAll(style, EMPTY_OUTPUT, Events(v)) == Some(Output(Printed(style, v), NoLevel, true))
  {
    hide Layout, TreeText, WriteAll, Events;
    ValueWritten(style, EMPTY_OUTPUT, v);
    assert [] + Printed(style, v) == Printed(style, v);
  }
}
