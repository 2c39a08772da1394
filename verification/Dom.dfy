/** The document builder of document.h: a stack machine over events, and replay through Accept. */
module Dom {
  import opened Bytes
  import opened Json
  import opened Scanner
  import Recursive
  import Discipline

  // ---- Number flags ----

  /** kIntFlag, kUintFlag, kInt64Flag and kUint64Flag of a number value. */
  datatype NumberFlags = NumberFlags(isInt: bool, isUint: bool, isInt64: bool, isUint64: bool)

  /** Which C++ integer types hold the mathematical value. */
  function FittingTypes(n: Int64): NumberFlags {
    NumberFlags(INT_MIN <= n <= INT_MAX, 0 <= n <= UINT_MAX, n <= INT64_MAX, 0 <= n)
  }

  /** GenericValue(int). */
  function FlagsOfInt(i: int): (r: NumberFlags)
    requires INT_MIN <= i <= INT_MAX
    ensures r == FittingTypes(i)
  {
    if i >= 0 then NumberFlags(true, true, true, true) else NumberFlags(true, false, true, false)
  }

  /** GenericValue(unsigned): bit 31 decides. */
  function FlagsOfUint(u: int): (r: NumberFlags)
    requires 0 <= u <= UINT_MAX
    ensures r == FittingTypes(u)
  {
    if u / 0x8000_0000 % 2 == 1 then NumberFlags(false, true, true, true) else NumberFlags(true, true, true, true)
  }

  /** GenericValue(int64_t): the high words decide. */
  function FlagsOfInt64(i: int): (r: NumberFlags)
    requires INT64_MIN <= i <= INT64_MAX
    ensures r == FittingTypes(i)
  {
    if i >= 0 then NumberFlags(i / 0x8000_0000 == 0, i / 0x1_0000_0000 == 0, true, true)
    else NumberFlags(i >= INT_MIN, false, true, false)
  }

  /** GenericValue(uint64_t). */
  function FlagsOfUint64(u: int): (r: NumberFlags)
    requires 0 <= u <= UINT64_MAX
    ensures r == FittingTypes(u)
  {
    NumberFlags(u / 0x8000_0000 == 0, u / 0x1_0000_0000 == 0, u / 0x8000_0000_0000_0000 == 0, true)
  }

  /** The number case of Accept: it looks at the flags only. */
  function AcceptNumber(flags: NumberFlags, n: Int64): (e: Event)
    requires flags == FittingTypes(n)
    ensures e == NumberEvent(n) && InKind(e)
  {
    if flags.isInt then EInt(n) else if flags.isUint then EUint(n) else if flags.isInt64 then EInt64(n) else EUint64(n)
  }

  // ---- The handler as a function of the stack ----

  /** Consecutive names and values on the stack read as members; None if a name is no string. */
  function ToMembers(vs: seq<JSON>): Option<seq<Member>>
    decreases |vs|
  {
    if vs == [] then Some([])
    else if |vs| == 1 || !vs[0].String? then None
    else
      var rest := ToMembers(vs[2..]);
      if rest.None? then None else Some([Member(vs[0].s, vs[1])] + rest.value)
  }

  /** What an event other than a container's end pushes. */
  function Pushed(e: Event): JSON
    requires !e.EEndObject? && !e.EEndArray?
  {
    match e
    case ENull => Null
    case EBool(b) => Bool(b)
    case EDouble(x) => Real(x)
    case ERawNumber(x) => String(x)
    case EString(s) => String(s)
    case EKey(s) => String(s)
    case EStartObject => Object([])
    case EStartArray => Array([])
    case EInt(n) => Integral(n)
    case EUint(n) => Integral(n)
    case EInt64(n) => Integral(n)
    case EUint64(n) => Integral(n)
  }

  /** The number value; no integer argument lies outside the 64-bit ranges. */
  function Integral(n: int): JSON {
    if INT64_MIN <= n <= UINT64_MAX then Number(n) else Null
  }

  /** One handler call; None where the stack would underflow or a member name is no string. */
  function Step(stack: seq<JSON>, e: Event): Option<seq<JSON>> {
    match e
    case EEndArray(n) =>
      if |stack| < n + 1 then None else Some(stack[..|stack| - n - 1] + [Array(stack[|stack| - n..])])
    case EEndObject(n) =>
      if |stack| < 2 * n + 1 then None
      else
        var ms := ToMembers(stack[|stack| - 2 * n..]);
        if ms.None? then None else Some(stack[..|stack| - 2 * n - 1] + [Object(ms.value)])
    case _ => Some(stack + [Pushed(e)])
  }

  function Run(stack: seq<JSON>, es: seq<Event>): Option<seq<JSON>>
    decreases |es|
  {
    if es == [] then Some(stack)
    else
      var s := Step(stack, es[0]);
      if s.None? then None else Run(s.value, es[1..])
  }

  lemma {:induction false} RunConcat(stack: seq<JSON>, a: seq<Event>, b: seq<Event>)
    ensures Run(stack, a + b) == if Run(stack, a).None? then None else Run(Run(stack, a).value, b)
    decreases |a|
  {
    hide Step;
    if a == [] {
      assert a + b == b;
    } else {
      assert (a + b)[1..] == a[1..] + b;
      var s := Step(stack, a[0]);
      if s.Some? {
        RunConcat(s.value, a[1..], b);
      }
    }
  }

  lemma RunOne(stack: seq<JSON>, e: Event)
    ensures Run(stack, [e]) == Step(stack, e)
  {
    hide Step;
    assert [e][1..] == [];
  }

  /** The names and values of members as they lie on the stack. */
  function Flat(ms: seq<Member>): (vs: seq<JSON>)
    ensures |vs| == 2 * |ms|
  {
    if ms == [] then [] else [String(ms[0].name), ms[0].value] + Flat(ms[1..])
  }

  lemma {:induction false} FlatIsRead(ms: seq<Member>)
    ensures ToMembers(Flat(ms)) == Some(ms)
  {
    if ms != [] {
      FlatIsRead(ms[1..]);
      assert Flat(ms)[2..] == Flat(ms[1..]);
      assert ms == [Member(ms[0].name, ms[0].value)] + ms[1..];
    }
  }

  lemma EndArrayStep(stack: seq<JSON>, top: JSON, vs: seq<JSON>)
    ensures Step(stack + [top] + vs, EEndArray(|vs|)) == Some(stack + [Array(vs)])
  {
    Suffix(stack, top, vs);
  }

  /** What lies on top of the stack, and below it. */
  lemma Suffix(stack: seq<JSON>, top: JSON, vs: seq<JSON>)
    ensures var s := stack + [top] + vs; s[..|s| - |vs| - 1] == stack && s[|s| - |vs|..] == vs
  {
  }

  lemma EndObjectStep(stack: seq<JSON>, top: JSON, ms: seq<Member>)
    ensures Step(stack + [top] + Flat(ms), EEndObject(|ms|)) == Some(stack + [Object(ms)])
  {
    hide Step, ToMembers, Flat;
    FlatIsRead(ms);
    MembersStep(stack, top, Flat(ms), ms);
  }

  lemma MembersStep(stack: seq<JSON>, top: JSON, vs: seq<JSON>, ms: seq<Member>)
    requires |vs| == 2 * |ms| && ToMembers(vs) == Some(ms)
    ensures Step(stack + [top] + vs, EEndObject(|ms|)) == Some(stack + [Object(ms)])
  {
    hide ToMembers;
    Suffix(stack, top, vs);
  }

  /** Replaying a value builds exactly that value on top of whatever is there: deep copy is exact. */
  lemma {:induction false} ReplayBuilds(stack: seq<JSON>, v: JSON)
    ensures Run(stack, Events(v)) == Some(stack + [v])
    decreases v, 1
  {
    hide Step, Run;
    match v
    case Array(vs) =>
      RunOne(stack, EStartArray);
      RunConcat(stack, [EStartArray], ElementEvents(vs));
      assert Step(stack, EStartArray) == Some(stack + [Array([])]) by { PushStep(stack, EStartArray); }
      ReplayElements(stack + [Array([])], vs);
      EndArrayStep(stack, Array([]), vs);
      RunOne(stack + [Array([])] + vs, EEndArray(|vs|));
      RunConcat(stack, [EStartArray] + ElementEvents(vs), [EEndArray(|vs|)]);
    case Object(ms) =>
      RunOne(stack, EStartObject);
      RunConcat(stack, [EStartObject], MemberEvents(ms));
      assert Step(stack, EStartObject) == Some(stack + [Object([])]) by { PushStep(stack, EStartObject); }
      ReplayMembers(stack + [Object([])], ms);
      EndObjectStep(stack, Object([]), ms);
      RunOne(stack + [Object([])] + Flat(ms), EEndObject(|ms|));
      RunConcat(stack, [EStartObject] + MemberEvents(ms), [EEndObject(|ms|)]);
    case _ =>
      var e := Events(v)[0];
      PushStep(stack, e);
      RunOne(stack, e);
  }

  lemma PushStep(stack: seq<JSON>, e: Event)
    requires !e.EEndObject? && !e.EEndArray?
    ensures Step(stack, e) == Some(stack + [Pushed(e)])
  {
  }

  lemma {:induction false} ReplayElements(stack: seq<JSON>, vs: seq<JSON>)
    ensures Run(stack, ElementEvents(vs)) == Some(stack + vs)
    decreases vs, 0
  {
    hide Step, Events;
    if vs == [] {
      assert stack + vs == stack;
    } else {
      ReplayBuilds(stack, vs[0]);
      ReplayElements(stack + [vs[0]], vs[1..]);
      RunConcat(stack, Events(vs[0]), ElementEvents(vs[1..]));
      assert stack + [vs[0]] + vs[1..] == stack + vs;
    }
  }

  lemma {:induction false} ReplayMembers(stack: seq<JSON>, ms: seq<Member>)
    ensures Run(stack, MemberEvents(ms)) == Some(stack + Flat(ms))
    decreases ms, 0
  {
    hide Step, Events;
    if ms == [] {
      assert stack + Flat(ms) == stack;
    } else {
      var key, m := EKey(ms[0].name), ms[0];
      PushStep(stack, key);
      RunOne(stack, key);
      var named := stack + [String(m.name)];
      ReplayBuilds(named, m.value);
      ReplayMembers(named + [m.value], ms[1..]);
      RunConcat(stack, [key], Events(m.value));
      RunConcat(stack, [key] + Events(m.value), MemberEvents(ms[1..]));
      assert MemberEvents(ms) == [key] + Events(m.value) + MemberEvents(ms[1..]);
      assert stack + ([String(m.name), m.value] + Flat(ms[1..])) == named + [m.value] + Flat(ms[1..]);
    }
  }

  /** A value can be read off its events: two values with the same events are the same. */
  lemma EventsDetermineValue(v: JSON, w: JSON)
    requires Events(v) == Events(w)
    ensures v == w
  {
    ReplayBuilds([], v);
    ReplayBuilds([], w);
    assert ([] + [v])[0] == ([] + [w])[0];
  }

  /** The builder does not see the way a number is reported. */
  lemma StepCanonical(stack: seq<JSON>, e: Event)
    ensures Step(stack, e) == Step(stack, Canonical(e))
  {
  }

  lemma {:induction false} RunCanonical(stack: seq<JSON>, es: seq<Event>)
    ensures Run(stack, es) == Run(stack, CanonicalAll(es))
    decreases |es|
  {
    hide Step;
    if es != [] {
      StepCanonical(stack, es[0]);
      var s := Step(stack, es[0]);
      assert CanonicalAll(es)[1..] == CanonicalAll(es[1..]);
      if s.Some? {
        RunCanonical(s.value, es[1..]);
      }
    }
  }

  /** A beginning of a run that goes through goes through. */
  lemma PrefixRuns(stack: seq<JSON>, a: seq<Event>, whole: seq<Event>)
    requires a <= whole && Run(stack, whole).Some?
    ensures Run(stack, a).Some?
  {
    RunConcat(stack, a, whole[|a|..]);
    assert a + whole[|a|..] == whole;
  }

  /** Under any flags, the events of a successful parse leave exactly one value on the stack, the value they report;
      those of a failing parse never ask for more than the stack holds. */
  lemma StackDiscipline(f: Flags, t: Text) returns (v: JSON)
    ensures var r := Recursive.Parse(f, t);
            && (r.Ok? ==> Run([], r.log) == Some([v]) && CanonicalAll(r.log) == Events(v))
            && (r.Err? ==> Run([], r.log).Some?)
  {
    hide Step, Recursive.Parse, Events, CanonicalAll;
    var r := Recursive.Parse(f, t);
    v := Discipline.ParseReports(f, t);
    ReplayBuilds([], v);
    assert [] + [v] == [v];
    RunCanonical([], r.log);
    if r.Err? {
      PrefixRuns([], CanonicalAll(r.log), Events(v));
    }
  }
}
