/** The reader's event log under any flags: a finished run reports one value, a failing run the beginning of one. */
module Discipline {
  import opened Bytes
  import opened Json
  import opened Scanner
  import opened Recursive

  /** From `log` the outcome reports `body` and then `end`, or fails after a proper part of them. */
  predicate Reports(r: Outcome, log: seq<Event>, body: seq<Event>, end: seq<Event>) {
    var sent, whole := CanonicalAll(r.log), CanonicalAll(log) + body + end;
    if r.Ok? then sent == whole else sent < whole
  }

  lemma NoEvent(r: Outcome, log: seq<Event>, end: seq<Event>)
    requires r.Err? && r.log == log && end != []
    ensures Reports(r, log, [], end)
  {
  }

  /** A leaf reports one value. */
  lemma ScalarReports(f: Flags, t: Text, p: nat, log: seq<Event>) returns (v: JSON)
    requires p <= |t|
    ensures Reports(ParseScalar(f, t, p, log), log, Events(v), [])
  {
    hide ScanNumber, ScanString, ScanWord, CanonicalAll;
    var r := ParseScalar(f, t, p, log);
    if r.Err? {
      v := Null;
      assert r.log == log;
    } else {
      var e := r.log[|log|];
      assert r.log == log + [e];
      CanonicalAppend(log, e);
      if e.ENull? {
        v := Null;
      } else if e.EBool? {
        v := Bool(e.b);
      } else if e.EString? {
        v := String(e.s);
      } else if e.ERawNumber? {
        v := String(e.lexeme);
      } else {
        NumberReports(f, t, p);
        v := if e.EDouble? then Real(e.lexeme) else Number(IntegerOf(e));
      }
    }
  }

  predicate IsNumber(e: Event) {
    e.EDouble? || e.ERawNumber? || ((e.EInt? || e.EUint? || e.EInt64? || e.EUint64?) && InKind(e))
  }

  lemma EventReports(f: Flags, t: Text, part: IntegerPart, end: nat, integral: bool)
    requires part.start <= end <= |t| && AllDigits(part.digits)
    ensures IsNumber(NumberEventAt(f, t, part, end, integral))
  {
    hide Numeral;
  }

  lemma ExponentReports(f: Flags, t: Text, part: IntegerPart, q: nat, integral: bool, scale: nat)
    requires part.start < q <= |t| && AllDigits(part.digits) && ScanExponent(f, t, part, q, integral, scale).Got?
    ensures IsNumber(ScanExponent(f, t, part, q, integral, scale).value)
  {
    hide Numeral, DigitsEnd, NumberEventAt, IsNumber;
    var r := ScanExponent(f, t, part, q, integral, scale);
    EventReports(f, t, part, r.pos, integral);
    EventReports(f, t, part, r.pos, false);
  }

  lemma FractionReports(f: Flags, t: Text, part: IntegerPart, q: nat)
    requires part.start < q <= |t| && AllDigits(part.digits) && ScanFraction(f, t, part, q).Got?
    ensures IsNumber(ScanFraction(f, t, part, q).value)
  {
    hide ScanExponent, DigitsEnd, IntegerTooBig, FractionScale, IsNumber;
    if Peek(t, q) != DOT {
      ExponentReports(f, t, part, q, true, 0);
    } else {
      var r := DigitsEnd(t, q + 1);
      ExponentReports(f, t, part, r, false, FractionScale(part.minus, part.digits, t[q + 1..r]));
    }
  }

  /** A number event is a double, a raw number, or an integer of its kind. */
  lemma NumberReports(f: Flags, t: Text, p: nat)
    requires p <= |t| && ScanNumber(f, t, p).Got?
    ensures IsNumber(ScanNumber(f, t, p).value)
  {
    hide ScanFraction, DigitsEnd, ScanNanOrInf, IsNumber;
    var minus := Peek(t, p) == MINUS;
    var q := if minus then p + 1 else p;
    if Peek(t, q) == ZERO {
      FractionReports(f, t, IntegerPart(p, minus, [ZERO], false), q + 1);
    } else if IsDigit(Peek(t, q)) {
      FractionReports(f, t, IntegerPart(p, minus, t[q..DigitsEnd(t, q)], false), DigitsEnd(t, q));
    } else {
      FractionReports(f, t, IntegerPart(p, minus, [], true), ScanNanOrInf(t, q).pos);
    }
  }

  lemma {:induction false} ValueReports(f: Flags, t: Text, p: nat, log: seq<Event>) returns (v: JSON)
    requires p <= |t|
    ensures Reports(ParseValue(f, t, p, log), log, Events(v), [])
    decreases |t| - p, 1
  {
    hide ParseScalar, Reports, Blanks, ParseElements, ParseMembers;
    if Peek(t, p) == LBRACE {
      var ms := ObjectReports(f, t, p, log);
      v := Object(ms);
    } else if Peek(t, p) == LBRACKET {
      var vs := ArrayReports(f, t, p, log);
      v := Array(vs);
    } else {
      v := ScalarReports(f, t, p, log);
    }
  }

  /** Bracketing: a body reported behind the start event. */
  lemma Bracketed(r: Outcome, log: seq<Event>, start: Event, body: seq<Event>, end: Event)
    requires Canonical(start) == start && Reports(r, log + [start], body, [end])
    ensures Reports(r, log, [start] + body + [end], [])
  {
    hide CanonicalAll;
    CanonicalAppend(log, start);
    Assoc(CanonicalAll(log), [start], body);
    Assoc(CanonicalAll(log), [start] + body, [end]);
  }

  /** Sending the end event finishes an empty body. */
  lemma Ended(r: Outcome, log: seq<Event>, end: Event)
    requires r.Ok? && r.log == log + [end] && Canonical(end) == end
    ensures Reports(r, log, [], [end])
  {
    CanonicalAppend(log, end);
  }

  /** The first part went well and the rest reports on from there. */
  lemma Continued(r: Outcome, log: seq<Event>, log1: seq<Event>, first: seq<Event>, rest: seq<Event>, end: seq<Event>)
    requires CanonicalAll(log1) == CanonicalAll(log) + first && Reports(r, log1, rest, end)
    ensures Reports(r, log, first + rest, end)
  {
    hide CanonicalAll;
    Assoc(CanonicalAll(log), first, rest);
  }

  /** The first part failed: whatever would have come next, this is a beginning of it. */
  lemma Interrupted(r: Outcome, log: seq<Event>, first: seq<Event>, rest: seq<Event>, end: seq<Event>)
    requires r.Err? && Reports(r, log, first, [])
    ensures Reports(r, log, first + rest, end)
  {
    hide CanonicalAll;
    var a := CanonicalAll(log) + first;
    assert CanonicalAll(log) + (first + rest) + end == a + (rest + end);
  }

  lemma {:induction false} ArrayReports(f: Flags, t: Text, p: nat, log: seq<Event>) returns (vs: seq<JSON>)
    requires Peek(t, p) == LBRACKET
    ensures Reports(ParseArray(f, t, p, log), log, Events(Array(vs)), [])
    decreases |t| - p, 0
  {
    hide Reports, Skip, ParseElements;
    var r := ParseArray(f, t, p, log);
    var log1 := log + [EStartArray];
    var b := Blanks(f, t, p + 1, log1);
    vs := [];
    if b.Err? {
      NoEvent(r, log1, [EEndArray(0)]);
    } else if Peek(t, b.pos) == RBRACKET {
      Ended(r, log1, EEndArray(0));
    } else {
      vs := ElementsReport(f, t, b.pos, log1, 0);
    }
    Bracketed(r, log, EStartArray, ElementEvents(vs), EEndArray(|vs|));
  }

  lemma {:induction false} ElementsReport(f: Flags, t: Text, p: nat, log: seq<Event>, count: nat)
      returns (vs: seq<JSON>)
    requires p <= |t|
    ensures Reports(ParseElements(f, t, p, log, count), log, ElementEvents(vs), [EEndArray(count + |vs|)])
    decreases |t| - p, 2
  {
    hide Reports, ParseValue, Skip, Events, CanonicalAll, ParseElementsTail, ElementEvents;
    var r := ParseElements(f, t, p, log, count);
    var v := ValueReports(f, t, p, log);
    var first := ParseValue(f, t, p, log);
    vs := [v];
    if first.Err? {
      NoElements();
      Interrupted(r, log, Events(v), [], [EEndArray(count + 1)]);
    } else {
      assert CanonicalAll(first.log) == CanonicalAll(log) + Events(v) by { ReportsAll(first, log, Events(v)); }
      var b := Blanks(f, t, first.pos, first.log);
      var rest := [];
      if b.Err? {
        NoElements();
        NoEvent(r, first.log, [EEndArray(count + 1)]);
      } else {
        rest := ElementsTailReports(f, t, b.pos, b.log, count + 1);
      }
      Continued(r, log, first.log, Events(v), ElementEvents(rest), [EEndArray(count + 1 + |rest|)]);
      vs := [v] + rest;
      ElementEventsCons(v, rest);
    }
    if vs == [v] {
      ElementEventsCons(v, []);
      assert [v] + [] == [v];
      NoElements();
    }
  }

  lemma ReportsAll(r: Outcome, log: seq<Event>, body: seq<Event>)
    requires r.Ok? && Reports(r, log, body, [])
    ensures CanonicalAll(r.log) == CanonicalAll(log) + body
  {
    hide CanonicalAll;
  }

  lemma NoElements()
    ensures ElementEvents([]) == [] && MemberEvents([]) == []
  {
  }

  lemma {:induction false} ElementsTailReports(f: Flags, t: Text, p: nat, log: seq<Event>, count: nat)
      returns (vs: seq<JSON>)
    requires p <= |t|
    ensures Reports(ParseElementsTail(f, t, p, log, count), log, ElementEvents(vs), [EEndArray(count + |vs|)])
    decreases |t| - p, 2
  {
    hide Reports, Skip, ParseElements, ElementEvents;
    var r := ParseElementsTail(f, t, p, log, count);
    NoElements();
    vs := [];
    if Peek(t, p) == RBRACKET {
      Ended(r, log, EEndArray(count));
    } else if Peek(t, p) != COMMA {
      NoEvent(r, log, [EEndArray(count)]);
    } else {
      var b := Blanks(f, t, p + 1, log);
      if b.Err? {
        NoEvent(r, log, [EEndArray(count)]);
      } else if f.trailingCommas && Peek(t, b.pos) == RBRACKET {
        Ended(r, log, EEndArray(count));
      } else {
        vs := ElementsReport(f, t, b.pos, log, count);
      }
    }
  }

  lemma {:induction false} ObjectReports(f: Flags, t: Text, p: nat, log: seq<Event>) returns (ms: seq<Member>)
    requires Peek(t, p) == LBRACE
    ensures Reports(ParseObject(f, t, p, log), log, Events(Object(ms)), [])
    decreases |t| - p, 0
  {
    hide Reports, Skip, ParseMembers;
    var r := ParseObject(f, t, p, log);
    var log1 := log + [EStartObject];
    var b := Blanks(f, t, p + 1, log1);
    ms := [];
    if b.Err? {
      NoEvent(r, log1, [EEndObject(0)]);
    } else if Peek(t, b.pos) == RBRACE {
      Ended(r, log1, EEndObject(0));
    } else {
      ms := MembersReport(f, t, b.pos, log1, 0);
    }
    Bracketed(r, log, EStartObject, MemberEvents(ms), EEndObject(|ms|));
  }

  lemma {:induction false} MembersReport(f: Flags, t: Text, p: nat, log: seq<Event>, count: nat)
      returns (ms: seq<Member>)
    requires p <= |t|
    ensures Reports(ParseMembers(f, t, p, log, count), log, MemberEvents(ms), [EEndObject(count + |ms|)])
    decreases |t| - p, 2
  {
    hide Reports, ParseMemberValue, Skip, CanonicalAll, MemberEvents, ScanString;
    var r := ParseMembers(f, t, p, log, count);
    NoElements();
    ms := [];
    if Peek(t, p) != QUOTE || ParseString(f, t, p, log, true).Err? {
      NoEvent(r, log, [EEndObject(count)]);
    } else {
      var k := ParseString(f, t, p, log, true);
      var key := k.log[|log|];
      assert k.log == log + [key] && key.EKey?;
      CanonicalAppend(log, key);
      var b := Blanks(f, t, k.pos, k.log);
      if b.Err? || Peek(t, b.pos) != COLON {
        ms := [Member(key.name, Null)];
        NoEvent(r, k.log, [ENull] + [EEndObject(count + 1)]);
        KeyOnly(r, log, k.log, key.name, EEndObject(count + 1));
      } else {
        var v, rest := MemberValueReports(f, t, b.pos + 1, k.log, count);
        Continued(r, log, k.log, [key], Events(v) + MemberEvents(rest), [EEndObject(count + 1 + |rest|)]);
        Assoc([key], Events(v), MemberEvents(rest));
        ms := [Member(key.name, v)] + rest;
        MemberEventsCons(Member(key.name, v), rest);
      }
    }
  }

  lemma {:induction false} MemberValueReports(f: Flags, t: Text, p: nat, log: seq<Event>, count: nat)
      returns (v: JSON, rest: seq<Member>)
    requires p <= |t|
    ensures Reports(ParseMemberValue(f, t, p, log, count), log, Events(v) + MemberEvents(rest),
                    [EEndObject(count + 1 + |rest|)])
    decreases |t| - p, 3
  {
    hide Reports, ParseValue, Skip, CanonicalAll, ParseMembersTail, MemberEvents, Events;
    var r := ParseMemberValue(f, t, p, log, count);
    NoElements();
    v, rest := Null, [];
    var end := [EEndObject(count + 1)];
    var a := Blanks(f, t, p, log);
    if a.Err? {
      NoEvent(a, log, Events(v));
      Shift(a, log, Events(v));
      Interrupted(a, log, Events(v), [], end);
    } else {
      v := ValueReports(f, t, a.pos, log);
      var first := ParseValue(f, t, a.pos, log);
      if first.Err? {
        Interrupted(r, log, Events(v), [], end);
      } else {
        var b := Blanks(f, t, first.pos, first.log);
        if b.Err? {
          NoEvent(r, first.log, end);
        } else {
          rest := MembersTailReports(f, t, b.pos, b.log, count + 1);
        }
        ReportsAll(first, log, Events(v));
        Continued(r, log, first.log, Events(v), MemberEvents(rest), [EEndObject(count + 1 + |rest|)]);
      }
    }
  }

  lemma Shift(r: Outcome, log: seq<Event>, body: seq<Event>)
    requires Reports(r, log, [], body)
    ensures Reports(r, log, body, [])
  {
    hide CanonicalAll;
    assert CanonicalAll(log) + [] + body == CanonicalAll(log) + body + [];
  }

  /** A run that fails behind a name has begun an object whose member is null. */
  lemma KeyOnly(r: Outcome, log: seq<Event>, log1: seq<Event>, name: Text, end: Event)
    requires CanonicalAll(log1) == CanonicalAll(log) + [EKey(name)]
    requires Reports(r, log1, [], [ENull] + [end])
    ensures Reports(r, log, MemberEvents([Member(name, Null)]), [end])
  {
    hide CanonicalAll;
    var a := CanonicalAll(log);
    assert [Member(name, Null)][1..] == [];
    assert MemberEvents([Member(name, Null)]) == [EKey(name), ENull];
    assert a + [EKey(name)] + [] + ([ENull] + [end]) == a + [EKey(name), ENull] + [end];
  }

  lemma {:induction false} MembersTailReports(f: Flags, t: Text, p: nat, log: seq<Event>, count: nat)
      returns (ms: seq<Member>)
    requires p <= |t|
    ensures Reports(ParseMembersTail(f, t, p, log, count), log, MemberEvents(ms), [EEndObject(count + |ms|)])
    decreases |t| - p, 2
  {
    hide Reports, Skip, ParseMembers, MemberEvents;
    var r := ParseMembersTail(f, t, p, log, count);
    NoElements();
    ms := [];
    if Peek(t, p) == RBRACE {
      Ended(r, log, EEndObject(count));
    } else if Peek(t, p) != COMMA {
      NoEvent(r, log, [EEndObject(count)]);
    } else {
      var b := Blanks(f, t, p + 1, log);
      if b.Err? {
        NoEvent(r, log, [EEndObject(count)]);
      } else if f.trailingCommas && Peek(t, b.pos) == RBRACE {
        Ended(r, log, EEndObject(count));
      } else {
        ms := MembersReport(f, t, b.pos, log, count);
      }
    }
  }

  /** A whole run: it reports one value, or a proper beginning of one, or it stops on what follows a whole one. */
  lemma ParseReports(f: Flags, t: Text) returns (v: JSON)
    ensures Parse(f, t).Ok? ==> CanonicalAll(Parse(f, t).log) == Events(v)
    ensures Parse(f, t).Err? ==> CanonicalAll(Parse(f, t).log) <= Events(v)
  {
    hide ParseValue, Skip, Events;
    v := Null;
    var b := Blanks(f, t, 0, []);
    if b.Ok? && Peek(t, b.pos) != NUL {
      v := ValueReports(f, t, b.pos, []);
    }
  }
}
