/** Laws of the writers: when the output is complete, what refuses to be written, and what pretty printing adds. */
module WriterLaws {
  import opened Bytes
  import opened Json
  import opened Scanner
  import opened Grammar
  import opened Printing
  import opened Writing
  import Recursive
  import Discipline
  import Completeness
  import Utf8

  // ---- Completeness ----

  /** Writer::IsComplete. */
  predicate IsComplete(w: Output) {
    w.hasRoot && w.levels.NoLevel?
  }

  /** How many containers an event opens. */
  function Opens(e: Event): int {
    if e.EStartObject? || e.EStartArray? then 1 else if e.EEndObject? || e.EEndArray? then -1 else 0
  }

  function Balance(es: seq<Event>): int {
    if es == [] then 0 else Opens(es[0]) + Balance(es[1..])
  }

  lemma {:induction false} BalanceConcat(a: seq<Event>, b: seq<Event>)
    ensures Balance(a + b) == Balance(a) + Balance(b)
    decreases |a|
  {
    if a == [] {
      assert a + b == b;
    } else {
      assert (a + b)[1..] == a[1..] + b;
      BalanceConcat(a[1..], b);
    }
  }

  lemma BalanceOne(e: Event)
    ensures Balance([e]) == Opens(e)
  {
    assert [e][1..] == [];
  }

  /** A beginning of `a + b` is a beginning of `a`, or `a` and a beginning of `b`. */
  lemma PrefixOf(a: seq<Event>, b: seq<Event>, n: nat)
    requires n <= |a| + |b|
    ensures n <= |a| ==> (a + b)[..n] == a[..n]
    ensures n > |a| ==> (a + b)[..n] == a + b[..n - |a|]
  {
  }

  /** The events of a value are balanced, and no proper beginning of them is. */
  lemma {:induction false} ValueBalance(v: JSON, n: nat)
    requires n <= |Events(v)|
    ensures Balance(Events(v)[..n]) >= 0
    ensures 0 < n < |Events(v)| ==> Balance(Events(v)[..n]) >= 1
    ensures n == |Events(v)| ==> Balance(Events(v)[..n]) == 0
    decreases v, 1
  {
    hide Balance, NumberEvent;
    match v
    case Array(vs) =>
      if n > 0 {
        ElementsBalance(vs, if n <= |ElementEvents(vs)| then n - 1 else |ElementEvents(vs)|);
        Bracketed(EStartArray, ElementEvents(vs), EEndArray(|vs|), n);
      } else {
        NoBalance(v);
      }
    case Object(ms) =>
      if n > 0 {
        MembersBalance(ms, if n <= |MemberEvents(ms)| then n - 1 else |MemberEvents(ms)|);
        Bracketed(EStartObject, MemberEvents(ms), EEndObject(|ms|), n);
      } else {
        NoBalance(v);
      }
    case _ =>
      NoBalance(v);
      ScalarOpens(v);
      BalanceOne(Events(v)[0]);
      assert n == 1 ==> Events(v)[..n] == [Events(v)[0]];
  }

  lemma ScalarOpens(v: JSON)
    requires !v.Array? && !v.Object?
    ensures |Events(v)| == 1 && Opens(Events(v)[0]) == 0
  {
  }

  lemma NoBalance(v: JSON)
    ensures Balance(Events(v)[..0]) == 0
  {
    hide Events;
  }

  lemma Bracketed(start: Event, body: seq<Event>, end: Event, n: nat)
    requires Opens(start) == 1 && Opens(end) == -1 && 0 < n <= |body| + 2
    requires Balance(body[..if n <= |body| then n - 1 else |body|]) >= 0 && (n > |body| ==> Balance(body) == 0)
    ensures var whole := [start] + body + [end];
            if n == |body| + 2 then Balance(whole[..n]) == 0 else Balance(whole[..n]) >= 1
  {
    hide Balance;
    var whole := [start] + body + [end];
    BalanceOne(start);
    BalanceOne(end);
    if n <= |body| + 1 {
      assert whole[..n] == [start] + body[..n - 1];
      BalanceConcat([start], body[..n - 1]);
      assert n == |body| + 1 ==> body[..n - 1] == body;
    } else {
      assert whole[..n] == whole;
      BalanceConcat([start] + body, [end]);
      BalanceConcat([start], body);
    }
  }

  lemma {:induction false} ElementsBalance(vs: seq<JSON>, n: nat)
    requires n <= |ElementEvents(vs)|
    ensures Balance(ElementEvents(vs)[..n]) >= 0
    ensures Balance(ElementEvents(vs)) == 0
    decreases vs, 0
  {
    hide Events, Balance;
    if vs == [] {
      assert ElementEvents(vs)[..n] == [];
      BalanceNone();
    } else {
      var first, rest := Events(vs[0]), ElementEvents(vs[1..]);
      PrefixOf(first, rest, n);
      ValueBalance(vs[0], if n <= |first| then n else |first|);
      ValueBalance(vs[0], |first|);
      assert first[..|first|] == first;
      ElementsBalance(vs[1..], if n <= |first| then 0 else n - |first|);
      BalanceConcat(first, rest);
      if n > |first| {
        BalanceConcat(first, rest[..n - |first|]);
      }
    }
  }

  lemma BalanceNone()
    ensures Balance([]) == 0
  {
  }

  lemma {:induction false} MembersBalance(ms: seq<Member>, n: nat)
    requires n <= |MemberEvents(ms)|
    ensures Balance(MemberEvents(ms)[..n]) >= 0
    ensures Balance(MemberEvents(ms)) == 0
    decreases ms, 0
  {
    hide Events, Balance;
    BalanceNone();
    if ms == [] {
      assert MemberEvents(ms)[..n] == [];
    } else {
      var key, es, rest := EKey(ms[0].name), Events(ms[0].value), MemberEvents(ms[1..]);
      var first := [key] + es;
      BalanceOne(key);
      PrefixOf(first, rest, n);
      ValueBalance(ms[0].value, |es|);
      assert es[..|es|] == es;
      BalanceConcat([key], es);
      MembersBalance(ms[1..], if n <= |first| then 0 else n - |first|);
      BalanceConcat(first, rest);
      if n > |first| {
        BalanceConcat(first, rest[..n - |first|]);
      } else if n > 0 {
        ValueBalance(ms[0].value, n - 1);
        assert first[..n] == [key] + es[..n - 1];
        BalanceConcat([key], es[..n - 1]);
      } else {
        assert first[..n] == [];
      }
    }
  }

  /** Every handler call that succeeds changes the depth as the event says, and leaves a root behind. */
  lemma WriteDepth(style: Style, w: Output, e: Event)
    requires Write(style, w, e).Some? && (w.hasRoot || w.levels.NoLevel?)
    ensures var x := Write(style, w, e).value; Depth(x.levels) == Depth(w.levels) + Opens(e) && x.hasRoot
  {
    hide PrefixText, IntegerText, StringText, WritableString, CloseBlank;
  }

  lemma {:induction false} WriteAllDepth(style: Style, w: Output, es: seq<Event>)
    requires WriteAll(style, w, es).Some? && (w.hasRoot || w.levels.NoLevel?)
    ensures var x := WriteAll(style, w, es).value;
            Depth(x.levels) == Depth(w.levels) + Balance(es) && (x.hasRoot <==> w.hasRoot || es != [])
    decreases |es|
  {
    hide Write;
    if es != [] {
      WriteDepth(style, w, es[0]);
      WriteAllDepth(style, Write(style, w, es[0]).value, es[1..]);
    }
  }

  /** IsComplete becomes true exactly at the last event of a value. */
  lemma CompleteAtEnd(style: Style, v: JSON, n: nat)
    requires Writable(style, v) && n <= |Events(v)|
    ensures var w := WriteAll(style, EMPTY_OUTPUT, Events(v)[..n]);
            w.Some? && (IsComplete(w.value) <==> n == |Events(v)|)
  {
    hide Write, WriteAll, Events, Layout, TreeText, Balance;
    var es := Events(v);
    DocumentWritten(style, v);
    assert es[..n] + es[n..] == es;
    WriteConcat(style, EMPTY_OUTPUT, es[..n], es[n..]);
    WriteAllDepth(style, EMPTY_OUTPUT, es[..n]);
    ValueBalance(v, n);
    var levels := WriteAll(style, EMPTY_OUTPUT, es[..n]).value.levels;
    assert levels.NoLevel? <==> Depth(levels) == 0;
  }

  // ---- What is refused ----

  /** A value without doubles is refused if one of its strings is. */
  lemma {:induction false} ValueRefused(style: Style, w: Output, v: JSON)
    requires NoReals(v) && !Writable(style, v) && Prefix(style, w, v.String?).Some?
    ensures WriteAll(style, w, Events(v)).None?
    decreases v, 1
  {
    hide Prefix, WriteAll, TreeText, NumberEvent, IntegerText, StringText, Close, WritableString;
    match v
    case String(s) => WriteOne(style, w, EString(s));
    case Array(vs) =>
      var end := EEndArray(|vs|);
      Assoc([EStartArray], ElementEvents(vs), [end]);
      WriteFirst(style, w, EStartArray, ElementEvents(vs) + [end]);
      WriteConcat(style, Write(style, w, EStartArray).value, ElementEvents(vs), [end]);
      ElementsRefused(style, Write(style, w, EStartArray).value, vs);
    case Object(ms) =>
      var end := EEndObject(|ms|);
      Assoc([EStartObject], MemberEvents(ms), [end]);
      WriteFirst(style, w, EStartObject, MemberEvents(ms) + [end]);
      WriteConcat(style, Write(style, w, EStartObject).value, MemberEvents(ms), [end]);
      MembersRefused(style, Write(style, w, EStartObject).value, ms);
    case _ =>
  }

  lemma {:induction false} ElementsRefused(style: Style, w: Output, vs: seq<JSON>)
    requires NoRealElements(vs) && !AllWritable(style, vs) && w.levels.Level? && w.levels.inArray
    ensures WriteAll(style, w, ElementEvents(vs)).None?
    decreases vs, 0
  {
    hide WriteAll, TreeText, Layout, PrefixText, Events, Writable, NoReals;
    WriteConcat(style, w, Events(vs[0]), ElementEvents(vs[1..]));
    if Writable(style, vs[0]) {
      ValueWritten(style, w, vs[0]);
      ElementsRefused(style, WriteAll(style, w, Events(vs[0])).value, vs[1..]);
    } else {
      ValueRefused(style, w, vs[0]);
    }
  }

  lemma {:induction false} MembersRefused(style: Style, w: Output, ms: seq<Member>)
    requires NoRealMembers(ms) && !MembersWritable(style, ms) && w.levels.Level? && !w.levels.inArray &&
             w.levels.valueCount % 2 == 0
    ensures WriteAll(style, w, MemberEvents(ms)).None?
    decreases ms, 0
  {
    hide WriteAll, TreeText, Layout, PrefixText, Events, Writable, NoReals, StringText, ColonBlank, WritableString;
    var key, es := EKey(ms[0].name), Events(ms[0].value);
    WriteConcat(style, w, [key] + es, MemberEvents(ms[1..]));
    WriteFirst(style, w, key, es);
    if WritableString(style, ms[0].name) {
      if Writable(style, ms[0].value) {
        MemberWritten(style, w, ms[0]);
        MembersRefused(style, WriteAll(style, w, [key] + es).value, ms[1..]);
      } else {
        ValueRefused(style, Write(style, w, key).value, ms[0].value);
      }
    }
  }

  /** A value without doubles is written exactly if all its strings can be. */
  lemma WrittenExactly(style: Style, v: JSON)
    requires NoReals(v)
    ensures WriteAll(style, EMPTY_OUTPUT, Events(v)).Some? <==> Writable(style, v)
  {
    hide WriteAll, Events, Writable, Layout, TreeText;
    if Writable(style, v) {
      DocumentWritten(style, v);
    } else {
      ValueRefused(style, EMPTY_OUTPUT, v);
    }
  }

  // ---- Pretty printing ----

  /** Where a scan of JSON text stands: outside strings, inside one, or behind a backslash in one. */
  datatype Mode = Plain | Quoted | Backslashed

  function NextMode(m: Mode, c: Byte): Mode {
    match m
    case Plain => if c == QUOTE then Quoted else Plain
    case Quoted => if c == QUOTE then Plain else if c == BACKSLASH then Backslashed else Quoted
    case Backslashed => Quoted
  }

  function ModeAfter(s: Text, m: Mode): Mode {
    if s == [] then m else ModeAfter(s[1..], NextMode(m, s[0]))
  }

  /** Every byte of the text stands inside a string; the last one may end it. */
  predicate Inside(s: Text, m: Mode) {
    s == [] || (!m.Plain? && Inside(s[1..], NextMode(m, s[0])))
  }

  /** The text without the whitespace outside its strings. */
  function Squeeze(s: Text, m: Mode): Text {
    if s == [] then [] else (if m.Plain? && IsSpace(s[0]) then [] else [s[0]]) + Squeeze(s[1..], NextMode(m, s[0]))
  }

  lemma {:induction false} SqueezeConcat(a: Text, b: Text, m: Mode)
    ensures Squeeze(a + b, m) == Squeeze(a, m) + Squeeze(b, ModeAfter(a, m))
    ensures ModeAfter(a + b, m) == ModeAfter(b, ModeAfter(a, m))
    ensures Inside(a + b, m) <==> Inside(a, m) && Inside(b, ModeAfter(a, m))
    decreases |a|
  {
    if a == [] {
      assert a + b == b;
    } else {
      assert (a + b)[1..] == a[1..] + b;
      SqueezeConcat(a[1..], b, NextMode(m, a[0]));
      Assoc(if m.Plain? && IsSpace(a[0]) then []
          else [a[0]], Squeeze(a[1..], NextMode(m, a[0])), Squeeze(b, ModeAfter(a, m)));
    }
  }

  /** Text outside strings with no blanks and no quotes in it. */
  predicate IsDense(s: Text) {
    forall i :: 0 <= i < |s| ==> !IsSpace(s[i]) && s[i] != QUOTE
  }

  lemma {:induction false} DenseSqueeze(s: Text)
    requires IsDense(s)
    ensures Squeeze(s, Plain) == s && ModeAfter(s, Plain) == Plain
    decreases |s|
  {
    if s != [] {
      DenseSqueeze(s[1..]);
      assert s == [s[0]] + s[1..];
    }
  }

  lemma {:induction false} BlankSqueeze(s: Text)
    requires IsBlank(s)
    ensures Squeeze(s, Plain) == [] && ModeAfter(s, Plain) == Plain
    decreases |s|
  {
    if s != [] {
      BlankSqueeze(s[1..]);
    }
  }

  /** Nothing inside a string is squeezed out. */
  lemma {:induction false} QuotedSqueeze(s: Text)
    requires forall i :: 0 <= i < |s| ==> s[i] != QUOTE && s[i] != BACKSLASH
    ensures Squeeze(s, Quoted) == s && ModeAfter(s, Quoted) == Quoted && Inside(s, Quoted)
    decreases |s|
  {
    if s != [] {
      QuotedSqueeze(s[1..]);
      assert s == [s[0]] + s[1..];
    }
  }

  lemma EscapeSqueeze(e: Byte)
    ensures Squeeze([BACKSLASH, e], Quoted) == [BACKSLASH, e] && ModeAfter([BACKSLASH, e], Quoted) == Quoted
    ensures Inside([BACKSLASH, e], Quoted)
  {
    assert [BACKSLASH, e][1..] == [e] && [e][1..] == [];
    assert Squeeze([e], Backslashed) == [e] + Squeeze([], Quoted) &&
           ModeAfter([e], Backslashed) == ModeAfter([], Quoted) && Inside([e], Backslashed) == Inside([], Quoted);
  }

  lemma HexSqueeze(hex: Text)
    requires IsHex4(hex)
    ensures var s := [BACKSLASH, LETTER_U] + hex;
            Squeeze(s, Quoted) == s && ModeAfter(s, Quoted) == Quoted && Inside(s, Quoted)
  {
    hide Squeeze, ModeAfter, Inside, HexValue;
    EscapeSqueeze(LETTER_U);
    assert forall i :: 0 <= i < |hex| ==> IsHex(hex[i]);
    QuotedSqueeze(hex);
    SqueezeConcat([BACKSLASH, LETTER_U], hex, Quoted);
  }

  lemma CharSqueeze(c: Char)
    requires ValidChar(c)
    ensures Squeeze(CharText(c), Quoted) == CharText(c) && ModeAfter(CharText(c), Quoted) == Quoted
    ensures Inside(CharText(c), Quoted)
  {
    hide Squeeze, ModeAfter, Inside;
    match c
    case Literal(b) => QuotedSqueeze([b]);
    case Escape(e) => EscapeSqueeze(e);
    case Unicode(hex) => HexSqueeze(hex);
    case Surrogates(lead, trail) =>
      HexSqueeze(lead);
      HexSqueeze(trail);
      SqueezeConcat([BACKSLASH, LETTER_U] + lead, [BACKSLASH, LETTER_U] + trail, Quoted);
      Assoc([BACKSLASH, LETTER_U] + lead, [BACKSLASH, LETTER_U], trail);
  }

  lemma {:induction false} CharsSqueeze(cs: seq<Char>)
    requires ValidChars(cs)
    ensures Squeeze(CharsText(cs), Quoted) == CharsText(cs) && ModeAfter(CharsText(cs), Quoted) == Plain
    ensures Inside(CharsText(cs), Quoted)
    decreases |cs|
  {
    hide Squeeze, ModeAfter, Inside, CharText;
    if cs == [] {
      CloseQuote();
    } else {
      CharSqueeze(cs[0]);
      CharsSqueeze(cs[1..]);
      SqueezeConcat(CharText(cs[0]), CharsText(cs[1..]), Quoted);
    }
  }

  lemma CloseQuote()
    ensures Squeeze([QUOTE], Quoted) == [QUOTE] && ModeAfter([QUOTE], Quoted) == Plain && Inside([QUOTE], Quoted)
    ensures Squeeze([QUOTE], Plain) == [QUOTE] && ModeAfter([QUOTE], Plain) == Quoted
  {
    assert [QUOTE][1..] == [];
  }

  lemma StringSqueeze(style: Style, s: Text)
    requires WritableString(style, s)
    ensures Squeeze(StringText(style, s), Plain) == StringText(style, s) &&
            ModeAfter(StringText(style, s), Plain) == Plain
  {
    hide Squeeze, ModeAfter, Escaped, CharsText;
    CloseQuote();
    CharsSqueeze(Escaped(style, s));
    SqueezeConcat([QUOTE], CharsText(Escaped(style, s)), Plain);
  }

  lemma IntegerDense(n: int)
    ensures IsDense(IntegerText(n))
  {
    hide Decimal;
  }

  /** The plain writer to the same target. */
  function Plainly(style: Style): Style {
    Compact(style.ascii)
  }

  /** `p` is `c` with blanks added outside strings. */
  predicate Loosened(p: Text, c: Text) {
    Squeeze(p, Plain) == c && ModeAfter(p, Plain) == Plain
  }

  lemma LoosenedConcat(p: Text, c: Text, q: Text, d: Text)
    requires Loosened(p, c) && Loosened(q, d)
    ensures Loosened(p + q, c + d)
  {
    hide Squeeze, ModeAfter;
    SqueezeConcat(p, q, Plain);
  }

  lemma DenseLoosened(s: Text)
    requires IsDense(s)
    ensures Loosened(s, s)
  {
    DenseSqueeze(s);
  }

  lemma PrefixLoosened(style: Style, levels: Levels)
    requires ValidStyle(style) && levels.Level?
    ensures Loosened(PrefixText(style, levels), PrefixText(Plainly(style), levels))
  {
    hide Loosened, NewLine;
    var n, level := levels.valueCount, Depth(levels);
    if levels.inArray && n > 0 {
      MarkLoosened(COMMA, CommaBlank(style, level, true));
    } else if levels.inArray {
      BlankLoosened(OpenBlank(style, level, true));
    } else if n % 2 == 1 {
      MarkLoosened(COLON, ColonBlank(style));
    } else if n > 0 {
      MarkLoosened(COMMA, CommaBlank(style, level, false));
    } else {
      BlankLoosened(OpenBlank(style, level, false));
    }
  }

  lemma BlankLoosened(blank: Text)
    requires IsBlank(blank)
    ensures Loosened(blank, [])
  {
    BlankSqueeze(blank);
  }

  lemma MarkLoosened(c: Byte, blank: Text)
    requires !IsSpace(c) && c != QUOTE && IsBlank(blank)
    ensures Loosened([c] + blank, [c] + [])
  {
    hide Loosened;
    DenseLoosened([c]);
    BlankLoosened(blank);
    LoosenedConcat([c], [c], blank, []);
  }

  /** Two outputs that differ by blanks only. */
  predicate SameButBlanks(p: Option<Output>, c: Option<Output>) {
    p.Some? == c.Some? &&
    (p.Some? ==>
        Loosened(p.value.text, c.value.text) && p.value.levels == c.value.levels && p.value.hasRoot == c.value.hasRoot)
  }

  lemma PrefixSame(style: Style, p: Output, c: Output, isString: bool)
    requires ValidStyle(style) && SameButBlanks(Some(p), Some(c))
    ensures SameButBlanks(Prefix(style, p, isString), Prefix(Plainly(style), c, isString))
  {
    hide Loosened, PrefixText;
    if p.levels.Level? {
      PrefixLoosened(style, p.levels);
      LoosenedConcat(p.text, c.text, PrefixText(style, p.levels), PrefixText(Plainly(style), p.levels));
    }
  }

  lemma PutSame(p: Option<Output>, c: Option<Output>, s: Text)
    requires SameButBlanks(p, c) && Loosened(s, s)
    ensures SameButBlanks(Put(p, s), Put(c, s))
  {
    hide Loosened;
    if p.Some? {
      LoosenedConcat(p.value.text, c.value.text, s, s);
    }
  }

  lemma PutStringSame(style: Style, p: Option<Output>, c: Option<Output>, s: Text)
    requires SameButBlanks(p, c)
    ensures SameButBlanks(PutString(style, p, s), PutString(Plainly(style), c, s))
  {
    hide Loosened, SameButBlanks, Put;
    if WritableString(style, s) {
      assert Loosened(StringText(style, s), StringText(style, s)) by { StringLoosened(style, s); }
      assert StringText(Plainly(style), s) == StringText(style, s);
      PutSame(p, c, StringText(style, s));
    } else {
      NoneSame();
    }
  }

  lemma StringLoosened(style: Style, s: Text)
    requires WritableString(style, s)
    ensures Loosened(StringText(style, s), StringText(style, s))
  {
    StringSqueeze(style, s);
  }

  lemma CloseSame(style: Style, p: Output, c: Output, inArray: bool)
    requires ValidStyle(style) && SameButBlanks(Some(p), Some(c))
    ensures SameButBlanks(Close(style, p, inArray), Close(Plainly(style), c, inArray))
  {
    hide Loosened, NewLine;
    if p.levels.Level? && p.levels.inArray == inArray {
      var bracket := [if inArray then RBRACKET else RBRACE];
      var blank := if p.levels.valueCount == 0 then [] else CloseBlank(style, Depth(p.levels.outer), inArray);
      DenseLoosened(bracket);
      BlankLoosened(blank);
      LoosenedConcat(blank, [], bracket, bracket);
      LoosenedConcat(p.text, c.text, blank + bracket, [] + bracket);
    }
  }

  lemma PushSame(p: Option<Output>, c: Option<Output>, inArray: bool)
    requires SameButBlanks(p, c)
    ensures SameButBlanks(Push(p, inArray), Push(c, inArray))
  {
    hide Loosened;
  }

  /** One handler call of PrettyWriter adds what the same call of Writer adds, and blanks. */
  lemma WriteSame(style: Style, p: Output, c: Output, e: Event)
    requires ValidStyle(style) && SameButBlanks(Some(p), Some(c))
    ensures SameButBlanks(Write(style, p, e), Write(Plainly(style), c, e))
  {
    hide Loosened, SameButBlanks, Prefix, Put, PutString, Push, Close, IntegerText;
    PrefixSame(style, p, c, false);
    PrefixSame(style, p, c, true);
    var pp, cc := Prefix(style, p, false), Prefix(Plainly(style), c, false);
    match e
    case ENull => WordSame(pp, cc, NULL_WORD);
    case EBool(b) => WordSame(pp, cc, if b then TRUE_WORD else FALSE_WORD);
    case EInt(n) => IntegerSame(pp, cc, n);
    case EUint(n) => IntegerSame(pp, cc, n);
    case EInt64(n) => IntegerSame(pp, cc, n);
    case EUint64(n) => IntegerSame(pp, cc, n);
    case EDouble(_) => NoneSame();
    case ERawNumber(s) => PutStringSame(style, pp, cc, s);
    case EString(s) => PutStringSame(style, Prefix(style, p, true), Prefix(Plainly(style), c, true), s);
    case EKey(s) => PutStringSame(style, Prefix(style, p, true), Prefix(Plainly(style), c, true), s);
    case EStartObject =>
      PushSame(pp, cc, false);
      WordSame(Push(pp, false), Push(cc, false), [LBRACE]);
    case EStartArray =>
      PushSame(pp, cc, true);
      WordSame(Push(pp, true), Push(cc, true), [LBRACKET]);
    case EEndObject(_) => CloseSame(style, p, c, false);
    case EEndArray(_) => CloseSame(style, p, c, true);
  }

  lemma NoneSame()
    ensures SameButBlanks(None, None)
  {
  }

  lemma WordSame(p: Option<Output>, c: Option<Output>, word: Text)
    requires SameButBlanks(p, c) && IsDense(word)
    ensures SameButBlanks(Put(p, word), Put(c, word))
  {
    hide SameButBlanks, Loosened, Put;
    DenseLoosened(word);
    PutSame(p, c, word);
  }

  lemma IntegerSame(p: Option<Output>, c: Option<Output>, n: int)
    requires SameButBlanks(p, c)
    ensures SameButBlanks(Put(p, IntegerText(n)), Put(c, IntegerText(n)))
  {
    hide SameButBlanks, Put;
    IntegerDense(n);
    WordSame(p, c, IntegerText(n));
  }

  lemma {:induction false} WriteAllSame(style: Style, p: Output, c: Output, es: seq<Event>)
    requires ValidStyle(style) && SameButBlanks(Some(p), Some(c))
    ensures SameButBlanks(WriteAll(style, p, es), WriteAll(Plainly(style), c, es))
    decreases |es|
  {
    hide Loosened, Write;
    if es != [] {
      WriteSame(style, p, c, es[0]);
      var x, y := Write(style, p, es[0]), Write(Plainly(style), c, es[0]);
      if x.Some? {
        WriteAllSame(style, x.value, y.value, es[1..]);
      }
    }
  }

  /** For every sequence of handler calls, complete or not: PrettyWriter succeeds exactly if Writer does, and
      deleting the whitespace outside strings from its output gives exactly the output of Writer. */
  lemma PrettyIsWriterWithBlanks(style: Style, es: seq<Event>)
    requires ValidStyle(style)
    ensures var p, c := WriteAll(style, EMPTY_OUTPUT, es), WriteAll(Compact(style.ascii), EMPTY_OUTPUT, es);
            && p.Some? == c.Some?
            && (p.Some? ==> Squeeze(p.value.text, Plain) == c.value.text && IsComplete(p.value) == IsComplete(c.value))
  {
    hide WriteAll;
    WriteAllSame(style, EMPTY_OUTPUT, EMPTY_OUTPUT, es);
  }
}
