/** A reader driving a writer, and reading what was written: what survives, and what does not. */
module Reformatting {
  import opened Bytes
  import opened Json
  import opened Scanner
  import opened Grammar
  import opened Printing
  import opened Writing
  import opened DocumentPath
  import Recursive
  import Discipline
  import Completeness
  import opened Doubles

  // ---- Writing a log ----

  /** A level of the writer below the innermost one, and the container of the event stream that it stands for. */
  predicate Below(levels: Levels, p: Place) {
    match levels
    case NoLevel => p.Outside?
    case Level(n, inArray, outer) =>
      p.Inside? && p.child.Some? && inArray == p.isArray && (!inArray ==> n % 2 == 0) && Below(outer, p.outer)
  }

  /** The innermost level: in an object, the number of values is odd behind a name. */
  predicate Follows(levels: Levels, p: Place) {
    match levels
    case NoLevel => p.Outside?
    case Level(n, inArray, outer) =>
      p.Inside? && inArray == p.isArray && Below(outer, p.outer) &&
          if inArray then p.child.None? else p.child.Some? <==> n % 2 == 1
  }

  lemma BelowFollows(levels: Levels, p: Place)
    requires Below(levels, p)
    ensures Follows(levels, CloseChild(p))
  {
  }

  /** A raw number comes where a value may, so it is written as the string it would be. */
  lemma WriteCanonical(style: Style, w: Output, p: Place, e: Event)
    requires Follows(w.levels, p) && Next(p, Canonical(e)).Some?
    ensures Write(style, w, e) == Write(style, w, Canonical(e))
    ensures Write(style, w, e).Some? ==> Follows(Write(style, w, e).value.levels, Next(p, Canonical(e)).value)
  {
    hide PrefixText, IntegerText, StringText, WritableString, CloseBlank;
    if e.EEndObject? || e.EEndArray? {
      if w.levels.Level? {
        BelowFollows(w.levels.outer, p.outer);
      }
    }
  }

  lemma {:induction false} WriteAllCanonical(style: Style, w: Output, p: Place, es: seq<Event>)
    requires Follows(w.levels, p) && NextAll(p, CanonicalAll(es)).Some?
    ensures WriteAll(style, w, es) == WriteAll(style, w, CanonicalAll(es))
    decreases |es|
  {
    hide Write, Canonical, Next, Follows;
    if es != [] {
      assert CanonicalAll(es)[1..] == CanonicalAll(es[1..]);
      WriteCanonical(style, w, p, es[0]);
      var x := Write(style, w, es[0]);
      if x.Some? {
        WriteAllCanonical(style, x.value, Next(p, Canonical(es[0])).value, es[1..]);
      }
    }
  }

  /** Writing the log of a value puts what writing the value puts: raw numbers as strings. */
  lemma LogWritten(style: Style, es: seq<Event>, v: JSON)
    requires CanonicalAll(es) == Events(v)
    ensures WriteAll(style, EMPTY_OUTPUT, es) == WriteAll(style, EMPTY_OUTPUT, Events(v))
  {
    hide WriteAll, NextAll, Events;
    ValueFollows(Outside, v);
    WriteAllCanonical(style, EMPTY_OUTPUT, Outside, es);
  }

  // ---- Reading it back ----

  predicate NoRaw(es: seq<Event>) {
    forall i :: 0 <= i < |es| ==> !es[i].ERawNumber?
  }

  /** Forget the kinds of integers only. */
  function Kindless(es: seq<Event>): (r: seq<Event>)
    ensures |r| == |es|
  {
    seq(|es|, i requires 0 <= i < |es| => if es[i].ERawNumber? then es[i] else Canonical(es[i]))
  }

  lemma NoRawAppend(es: seq<Event>, e: Event)
    requires NoRaw(es) && !e.ERawNumber?
    ensures NoRaw(es + [e])
  {
  }

  /** Without the flag for them, no raw number is reported. */
  lemma {:induction false} TreeLogPlain(v: Tree, log: seq<Event>)
    requires ValidTree(v) && NoRaw(log)
    ensures NoRaw(TreeLog(v, log))
    decreases v
  {
    hide NoRaw, CharsValue, ValidNumeric, ValidChars, NumericText, Numeral;
    match v
    case NullWord => NoRawAppend(log, ENull);
    case TrueWord => NoRawAppend(log, EBool(true));
    case FalseWord => NoRawAppend(log, EBool(false));
    case Num(n) => NoRawAppend(log, NumericEvent(n));
    case Str(cs) => NoRawAppend(log, EString(CharsValue(cs, [])));
    case EmptyArray(_) =>
      NoRawAppend(log, EStartArray);
      NoRawAppend(log + [EStartArray], EEndArray(0));
    case EmptyObject(_) =>
      NoRawAppend(log, EStartObject);
      NoRawAppend(log + [EStartObject], EEndObject(0));
    case Arr(_, items) =>
      NoRawAppend(log, EStartArray);
      ItemsLogPlain(items, log + [EStartArray], 0);
    case Obj(_, pairs) =>
      NoRawAppend(log, EStartObject);
      PairsLogPlain(pairs, log + [EStartObject], 0);
  }

  lemma {:induction false} ItemsLogPlain(items: Items, log: seq<Event>, count: nat)
    requires ValidItems(items) && NoRaw(log)
    ensures NoRaw(ItemsLog(items, log, count))
    decreases items
  {
    hide NoRaw, TreeLog;
    TreeLogPlain(items.value, log);
    if items.MoreItems? {
      ItemsLogPlain(items.rest, TreeLog(items.value, log), count + 1);
    } else {
      NoRawAppend(TreeLog(items.value, log), EEndArray(count + 1));
    }
  }

  lemma {:induction false} PairsLogPlain(pairs: Pairs, log: seq<Event>, count: nat)
    requires ValidPairs(pairs) && NoRaw(log)
    ensures NoRaw(PairsLog(pairs, log, count))
    decreases pairs
  {
    hide NoRaw, TreeLog, CharsValue, ValidChars;
    var key := EKey(CharsValue(pairs.pair.name, []));
    NoRawAppend(log, key);
    TreeLogPlain(pairs.pair.value, log + [key]);
    var log1 := TreeLog(pairs.pair.value, log + [key]);
    if pairs.MorePairs? {
      PairsLogPlain(pairs.rest, log1, count + 1);
    } else {
      NoRawAppend(log1, EEndObject(count + 1));
    }
  }

  lemma PrintedPlain(style: Style, g: Flags, v: JSON)
    requires Writable(style, v) && ValidStyle(style) && Completeness.PlainFlags(g) &&
             Recursive.Parse(g, Printed(style, v)).Ok?
    ensures NoRaw(Recursive.Parse(g, Printed(style, v)).log)
  {
    hide Recursive.Parse, Layout, TreeText, TreeLog, Events, CanonicalAll, TreeValue, ValidTree, TreeTaken, Writable,
         NoRaw, CommasAllowed;
    LayoutMeaning(style, 0, v);
    LayoutTaken(style, g, 0, v);
    var d := Document([], Layout(style, 0, v), []);
    assert DocumentText(d) == Printed(style, v);
    Completeness.DocumentAccepted(g, d);
    assert NoRaw([]) by { NoneRaw(); }
    TreeLogPlain(d.root, []);
  }

  lemma NoneRaw()
    ensures NoRaw([])
  {
  }

  /** A log without raw numbers that means the same as another is the same up to the kinds of integers exactly if the
      other has none either. */
  lemma KindlessExact(a: seq<Event>, b: seq<Event>)
    requires CanonicalAll(a) == CanonicalAll(b) && NoRaw(a)
    ensures Kindless(a) == Kindless(b) <==> NoRaw(b)
  {
    hide Canonical;
    assert |a| == |CanonicalAll(a)| == |b|;
    forall i | 0 <= i < |a| ensures Canonical(a[i]) == Canonical(b[i]) && Kindless(a)[i] == Canonical(a[i]) {
      assert CanonicalAll(a)[i] == CanonicalAll(b)[i];
    }
    if NoRaw(b) {
      forall i | 0 <= i < |a| ensures Kindless(a)[i] == Kindless(b)[i] {
        assert Kindless(b)[i] == Canonical(b[i]);
      }
    } else {
      var i :| 0 <= i < |b| && b[i].ERawNumber?;
      NotRaw(a[i]);
      assert Kindless(b)[i] == b[i];
    }
  }

  lemma NotRaw(e: Event)
    ensures !Canonical(e).ERawNumber?
  {
  }

  /** A reader driving a writer: what comes out of an accepted text, under whatever flags, is the printed value. Reading
      that succeeds, where encodings are checked, for UTF-8 only; it gives the same value again, and the same events, up
      to the kinds of integers, exactly if there was no raw number. */
  lemma ReformattedIsRead(f: Flags, t: Text, style: Style, g: Flags) returns (v: JSON)
    requires ValidStyle(style) && Completeness.PlainFlags(g)
    ensures var r := Recursive.Parse(f, t);
            r.Ok? ==>
              && CanonicalAll(r.log) == Events(v)
              && (Writable(style, v) ==>
                    && WriteAll(style, EMPTY_OUTPUT, r.log) == Some(Output(Printed(style, v), NoLevel, true))
                    && var back := Recursive.Parse(g, Printed(style, v));
                    && (back.Ok? <==> AllReadable(g, v))
                    && (back.Ok? ==>
                         CanonicalAll(back.log) == CanonicalAll(r.log) &&
                         (Kindless(back.log) == Kindless(r.log) <==> NoRaw(r.log))))
  {
    hide Recursive.Parse, Events, CanonicalAll, Kindless, NoRaw, WriteAll, Layout, TreeText, Writable;
    v := Discipline.ParseReports(f, t);
    var r := Recursive.Parse(f, t);
    if r.Ok? && Writable(style, v) {
      LogWritten(style, r.log, v);
      DocumentWritten(style, v);
      PrintedIsRead(style, g, v);
      var back := Recursive.Parse(g, Printed(style, v));
      if back.Ok? {
        PrintedPlain(style, g, v);
        KindlessExact(back.log, r.log);
      }
    }
  }

  // ---- What does not survive ----

  /** The raw number 1 is written as "1" in quotes. */
  lemma RawQuoted(a: Arithmetic)
    ensures var f := DefaultFlags(a).(numbersAsStrings := true);
            Recursive.Parse(f, [0x31]) == Recursive.Ok(1, [ERawNumber([0x31])])
    ensures WriteAll(Compact(false), EMPTY_OUTPUT, [ERawNumber([0x31])]) ==
            Some(Output([QUOTE, 0x31, QUOTE], NoLevel, true))
  {
    RawOne(a);
    OneText();
    hide StringText;
    WriteOne(Compact(false), EMPTY_OUTPUT, ERawNumber([0x31]));
    assert [] + [QUOTE, 0x31, QUOTE] == [QUOTE, 0x31, QUOTE];
  }

  lemma OneText()
    ensures StringText(Compact(false), [0x31]) == [QUOTE, 0x31, QUOTE]
  {
    assert [0x31][1..] == [] && EscapeBytes([]) == [] && EscapeByte(0x31) == Literal(0x31);
    assert EscapeBytes([0x31]) == [Literal(0x31)] + [];
    assert [Literal(0x31)][1..] == [];
    assert CharsText([Literal(0x31)]) == [0x31] + [QUOTE];
    assert [QUOTE] + ([0x31] + [QUOTE]) == [QUOTE, 0x31, QUOTE];
  }

  lemma RawOne(a: Arithmetic)
    ensures Recursive.Parse(DefaultFlags(a).(numbersAsStrings := true), [0x31]) == Recursive.Ok(1, [ERawNumber([0x31])])
  {
    var t: Text := [0x31];
    assert DigitsEnd(t, 1) == 1 && DigitsEnd(t, 0) == 1;
    assert t[0..1] == t && t[..0] == [];
    assert Numeral(t) == 1;
  }

  /** Integers are written as they were read, except that zero loses its sign. */
  lemma SignExact(n: Numeric)
    requires ValidNumeric(n) && IsInteger(n) && FitsInteger(n.minus, Numeral(n.integer))
    ensures IntegerText(IntegerOf(NumericEvent(n))) == NumericText(n) <==> !(n.minus && n.integer == [ZERO])
  {
    hide Numeral, Decimal;
    NumeralCanonical(n.integer);
    ZeroNumeral();
    DecimalCanonical(0);
  }

  lemma ZeroNumeral()
    ensures Numeral([ZERO]) == 0
  {
    assert [ZERO][..0] == [];
  }
}
