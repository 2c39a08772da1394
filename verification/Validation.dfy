/** Feeding the events of a value to the streaming validator computes the recursive verdict on the value. */
module Validation {
  import opened Bytes
  import opened Json
  import opened Schemas
  import opened Path
  import opened Validators

  // ---- Runs of many validators ----

  function RunAll(vs: seq<Validator>, es: seq<Event>): (r: seq<Validator>)
    ensures |r| == |vs|
  {
    seq(|vs|, i requires 0 <= i < |vs| => Run(vs[i], es))
  }

  function RunContext(c: Context, es: seq<Event>): Context {
    c.(validators := RunAll(c.validators, es))
  }

  /** Every parallel validator of every open context has seen the events. */
  function RunStack(stack: Stack, es: seq<Event>): Stack {
    match stack
    case Empty => Empty
    case Push(c, below) => Push(RunContext(c, es), RunStack(below, es))
  }

  lemma {:induction false} RunConcat(w: Validator, a: seq<Event>, b: seq<Event>)
    ensures Run(w, a + b) == Run(Run(w, a), b)
    decreases |a|
  {
    hide Step;
    if a == [] {
      assert a + b == b;
    } else {
      assert (a + b)[1..] == a[1..] + b;
      RunConcat(Step(w, a[0]), a[1..], b);
    }
  }

  lemma RunOne(w: Validator, e: Event)
    ensures Run(w, [e]) == Step(w, e)
  {
    hide Step;
    assert [e][1..] == [];
  }

  /** An invalid validator stays as it is. */
  lemma {:induction false} Stuck(w: Validator, es: seq<Event>)
    requires !w.valid
    ensures Run(w, es) == w
    decreases |es|
  {
    if es != [] {
      Stuck(w, es[1..]);
    }
  }

  lemma RunAllConcat(vs: seq<Validator>, a: seq<Event>, b: seq<Event>)
    ensures RunAll(RunAll(vs, a), b) == RunAll(vs, a + b)
  {
    hide Run;
    forall i | 0 <= i < |vs| ensures Run(Run(vs[i], a), b) == Run(vs[i], a + b) {
      RunConcat(vs[i], a, b);
    }
  }

  lemma {:induction false} RunStackConcat(stack: Stack, a: seq<Event>, b: seq<Event>)
    ensures RunStack(RunStack(stack, a), b) == RunStack(stack, a + b)
  {
    hide RunAll;
    if stack.Push? {
      RunAllConcat(stack.top.validators, a, b);
      RunStackConcat(stack.below, a, b);
    }
  }

  lemma RunAllNone(vs: seq<Validator>)
    ensures RunAll(vs, []) == vs
  {
  }

  lemma {:induction false} RunStackNone(stack: Stack)
    ensures RunStack(stack, []) == stack
  {
    hide RunAll;
    if stack.Push? {
      RunAllNone(stack.top.validators);
      RunStackNone(stack.below);
    }
  }

  lemma FeedIsRun(vs: seq<Validator>, e: Event)
    ensures Feed(vs, e) == RunAll(vs, [e])
  {
    hide Step, Run;
    forall i | 0 <= i < |vs| ensures Run(vs[i], [e]) == Step(vs[i], e) {
      RunOne(vs[i], e);
    }
    var f, r := Feed(vs, e), RunAll(vs, [e]);
    assert forall i :: 0 <= i < |vs| ==> f[i] == r[i];
  }

  lemma {:induction false} FeedStackIsRun(stack: Stack, e: Event)
    ensures FeedStack(stack, e) == RunStack(stack, [e])
  {
    hide Feed, RunAll;
    if stack.Push? {
      FeedIsRun(stack.top.validators, e);
      FeedStackIsRun(stack.below, e);
    }
  }

  // ---- Single steps, with the feeding written as runs ----

  predicate Begins(e: Event) {
    !e.EKey? && !e.EEndObject? && !e.EEndArray?
  }

  /** The stack when a value has passed the checks of its schema and its parallel validators exist. */
  function BegunStack(w: Validator, s: Schema, e: Event): Stack {
    Push(Opened(NewContext(s), e), AdvanceTop(w.stack))
  }

  lemma StartStep(w: Validator, s: Schema, e: Event)
    requires w.valid && (e.EStartObject? || e.EStartArray?) && ValueSchema(w) == Some(s)
    ensures CheckValue(s, e).Some? ==> !Step(w, e).valid
    ensures CheckValue(s, e).None? ==>
              Step(w, e) == w.(stack := RunStack(BegunStack(w, s, e), [e]), path := BeginPath(w))
  {
    hide CheckValue, Opened, AdvanceTop, FeedStack, ValueSchema, RunStack;
    FeedStackIsRun(BegunStack(w, s, e), e);
  }

  lemma ScalarStep(w: Validator, s: Schema, e: Event)
    requires w.valid && Begins(e) && !e.EStartObject? && !e.EStartArray? && ValueSchema(w) == Some(s)
    ensures CheckValue(s, e).Some? ==> !Step(w, e).valid
    ensures CheckValue(s, e).None? ==>
              Step(w, e) == EndValue(w.(stack := RunStack(BegunStack(w, s, e), [e]), path := BeginPath(w)))
  {
    hide CheckValue, Opened, AdvanceTop, FeedStack, ValueSchema, RunStack, EndValue;
    FeedStackIsRun(BegunStack(w, s, e), e);
  }

  lemma RefusedStep(w: Validator, e: Event)
    requires Begins(e) && ValueSchema(w).None?
    ensures !Step(w, e).valid
  {
  }

  lemma KeyStep(w: Validator, name: Text)
    requires w.valid && w.stack.Push?
    ensures var c := w.stack.top;
            && (MemberSchema(c.schema, name).None? ==> !Step(w, EKey(name)).valid)
            && (MemberSchema(c.schema, name).Some? ==>
                  Step(w, EKey(name)) ==
                      w.(stack := RunStack(Push(Keyed(c, name), w.stack.below), [EKey(name)]), path :=
                      w.path + NameToken(name)))
  {
    hide MemberSchema, FeedStack, RunStack, MarkExist;
    FeedStackIsRun(Push(Keyed(w.stack.top, name), w.stack.below), EKey(name));
  }

  /** The end of a value whose parallel validators have given the verdicts `valids`. */
  lemma EndStep(w: Validator, below: Stack, c: Context)
    requires w.valid && w.stack == Push(c, below)
    ensures EndValue(w).valid == CheckEndValue(c.schema, Valids(c.validators)).None?
    ensures EndValue(w).valid ==> EndValue(w) == w.(stack := below, path := PopToken(w.path))
  {
    hide CheckEndValue, Valids, PopToken;
  }

  lemma EndArrayStep(w: Validator, below: Stack, c: Context, n: nat)
    requires w.valid && w.stack == Push(c, below)
    ensures var e := EEndArray(n);
            && Step(w, e).valid ==
               (CheckEndArray(c.schema, n).None? && CheckEndValue(c.schema, Valids(RunAll(c.validators, [e]))).None?)
            && (Step(w, e).valid ==> Step(w, e) == w.(stack := RunStack(below, [e]), path := PopToken(w.path)))
  {
    hide CheckEndArray, CheckEndValue, Valids, RunAll, PopToken, FeedStack, Feed;
    FeedStackIsRun(w.stack, EEndArray(n));
  }

  lemma EndObjectStep(w: Validator, below: Stack, c: Context, n: nat)
    requires w.valid && w.stack == Push(c, below)
    ensures var e := EEndObject(n);
            var valids := Valids(RunAll(c.validators, [e]));
            && Step(w, e).valid ==
               (CheckEndObject(c.schema, c.propertyExist, valids, n).None? && CheckEndValue(c.schema, valids).None?)
            && (Step(w, e).valid ==> Step(w, e) == w.(stack := RunStack(below, [e]), path := PopToken(w.path)))
  {
    hide CheckEndObject, CheckEndValue, Valids, RunAll, PopToken, FeedStack, Feed;
    FeedStackIsRun(w.stack, EEndObject(n));
  }

  // ---- Whole values ----

  /** The validator behind a value that it accepts: the enclosing contexts have advanced, their parallel validators
      have seen the events, and the token of the value is gone. */
  function Passed(w: Validator, es: seq<Event>): Validator {
    w.(stack := RunStack(AdvanceTop(w.stack), es), path := PopToken(BeginPath(w)))
  }

  /** The verdict of the streaming validator on a value is the recursive one, whatever is open around it. */
  lemma {:induction false} ValueRun(w: Validator, s: Schema, v: JSON)
    requires w.valid && ValueSchema(w) == Some(s)
    ensures Run(w, Events(v)).valid == Accepts(s, v)
    ensures Accepts(s, v) ==> Run(w, Events(v)) == Passed(w, Events(v))
    decreases v, Height(s), 4
  {
    hide Run, Accepts, Passed, ValueSchema, Height;
    match v
    case Array(vs) => ArrayRun(w, s, vs);
    case Object(ms) => ObjectRun(w, s, ms);
    case _ => ScalarRun(w, s, v);
  }

  /** Parallel validators, each from its beginning, judge the value as their schemas do. */
  lemma {:induction false} VerdictsRun(ss: seq<Schema>, v: JSON)
    ensures Valids(RunAll(FreshAll(ss), Events(v))) == Verdicts(ss, v)
    decreases v, Heights(ss), 5
  {
    hide Run, Accepts, Events, Height;
    var vs := FreshAll(ss);
    forall i | 0 <= i < |ss| ensures Run(vs[i], Events(v)).valid == Accepts(ss[i], v) {
      assert Height(ss[i]) <= Heights(ss);
      ValueRun(Fresh(ss[i]), ss[i], v);
    }
  }

  lemma SubsHeight(s: Schema)
    ensures Heights(s.subs) < Height(s)
  {
  }

  lemma {:induction false} ScalarRun(w: Validator, s: Schema, v: JSON)
    requires w.valid && ValueSchema(w) == Some(s) && !v.Array? && !v.Object?
    ensures Run(w, Events(v)).valid == Accepts(s, v)
    ensures Accepts(s, v) ==> Run(w, Events(v)) == Passed(w, Events(v))
    decreases v, Height(s), 3
  {
    hide Run, Step, CheckValue, Height, ValueSchema, RunAll, FreshAll, Valids, AdvanceTop, CheckEndValue, Verdicts,
         PopToken, BeginPath, NumberEvent;
    var e := Events(v)[0];
    assert Events(v) == [e] && Begins(e) && !e.EStartObject? && !e.EStartArray? by { ScalarEvents(v); }
    RunOne(w, e);
    ScalarStep(w, s, e);
    SubsHeight(s);
    VerdictsRun(s.subs, v);
    if CheckValue(s, e).None? {
      var x := w.(stack := RunStack(BegunStack(w, s, e), [e]), path := BeginPath(w));
      EndStep(x, RunStack(AdvanceTop(w.stack), [e]), RunContext(Opened(NewContext(s), e), [e]));
    }
  }

  lemma ScalarEvents(v: JSON)
    requires !v.Array? && !v.Object?
    ensures Events(v) == [Events(v)[0]]
    ensures Begins(Events(v)[0]) && !Events(v)[0].EStartObject? && !Events(v)[0].EStartArray?
  {
  }

  // ---- Arrays ----

  /** The context of an array after `n` elements. */
  function AdvanceBy(c: Context, n: nat): Context
    decreases n
  {
    if n == 0 then c else AdvanceBy(Advance(c), n - 1)
  }

  lemma {:induction false} AdvanceByKeeps(c: Context, n: nat, es: seq<Event>)
    requires c.inArray
    ensures AdvanceBy(RunContext(c, es), n) == RunContext(AdvanceBy(c, n), es)
    ensures var d := AdvanceBy(c, n);
            d.schema == c.schema && d.validators == c.validators && d.propertyExist == c.propertyExist && d.inArray
    decreases n
  {
    hide RunAll, ElementSchema;
    if n > 0 {
      assert Advance(RunContext(c, es)) == RunContext(Advance(c), es);
      AdvanceByKeeps(Advance(c), n - 1, es);
    }
  }

  lemma {:induction false} ElementsRun(w: Validator, vs: seq<JSON>)
    requires w.valid && w.stack.Push? && w.stack.top.inArray
    ensures var c, r := w.stack.top, Run(w, ElementEvents(vs));
            && r.valid == ElementsAccepted(c.schema, c.arrayElementIndex, vs)
            && (r.valid ==> r == w.(stack := RunStack(Push(AdvanceBy(c, |vs|), w.stack.below), ElementEvents(vs))))
    decreases vs, 0, 0
  {
    hide Run, Accepts, Events, RunAll, PopToken, IndexToken, ElementSchema, AdvanceBy, RunStack;
    var c, below := w.stack.top, w.stack.below;
    if vs == [] {
      RunNone(w);
      NoElements(c, below);
    } else {
      var es, rest := Events(vs[0]), vs[1..];
      RunConcat(w, es, ElementEvents(rest));
      if ElementSchema(c.schema, c.arrayElementIndex).None? {
        RefusedRun(w, vs[0]);
        Stuck(Run(w, es), ElementEvents(rest));
      } else {
        ValueRun(w, ElementSchema(c.schema, c.arrayElementIndex).value, vs[0]);
        PopIndex(w.path, c.arrayElementIndex);
        if Run(w, es).valid {
          var x := w.(stack := RunStack(Push(Advance(c), below), es));
          assert Run(w, es) == x;
          MoreElements(c, below, es, ElementEvents(rest), |rest|);
          ElementsRun(x, rest);
        } else {
          Stuck(Run(w, es), ElementEvents(rest));
        }
      }
    }
  }

  lemma RunNone(w: Validator)
    ensures Run(w, []) == w
  {
  }

  lemma NoElements(c: Context, below: Stack)
    ensures RunStack(Push(AdvanceBy(c, 0), below), []) == Push(c, below)
  {
    hide RunStack;
    RunStackNone(Push(c, below));
  }

  lemma MoreElements(c: Context, below: Stack, first: seq<Event>, others: seq<Event>, n: nat)
    requires c.inArray
    ensures var x := RunStack(Push(Advance(c), below), first);
            && x.Push? && x.top == RunContext(Advance(c), first)
            && RunStack(Push(AdvanceBy(x.top, n), x.below), others) ==
               RunStack(Push(AdvanceBy(c, n + 1), below), first + others)
  {
    hide RunAll, ElementSchema;
    AdvanceByKeeps(Advance(c), n, first);
    RunStackConcat(Push(AdvanceBy(Advance(c), n), below), first, others);
  }

  /** A value for which there is no schema is refused at its first event. */
  lemma RefusedRun(w: Validator, v: JSON)
    requires ValueSchema(w).None?
    ensures !Run(w, Events(v)).valid
  {
    hide Run, Step, ValueSchema;
    var es := Events(v);
    assert Begins(es[0]) by { FirstBegins(v); }
    RefusedStep(w, es[0]);
    assert es == [es[0]] + es[1..];
    RunConcat(w, [es[0]], es[1..]);
    RunOne(w, es[0]);
    Stuck(Step(w, es[0]), es[1..]);
  }

  lemma FirstBegins(v: JSON)
    ensures Begins(Events(v)[0])
  {
  }

  lemma {:induction false} ArrayRun(w: Validator, s: Schema, vs: seq<JSON>)
    requires w.valid && ValueSchema(w) == Some(s)
    ensures var v := Array(vs);
            && Run(w, Events(v)).valid == Accepts(s, v)
            && (Accepts(s, v) ==> Run(w, Events(v)) == Passed(w, Events(v)))
    decreases Array(vs), Height(s), 3
  {
    hide Run, Step, CheckValue, Height, ValueSchema, RunAll, FreshAll, Valids, Verdicts, PopToken, BeginPath,
         CheckEndArray, CheckEndValue,
         AdvanceBy, ElementsAccepted, RunStack, AdvanceTop, Events;
    var es, n := ElementEvents(vs), |vs|;
    var inner := [EStartArray] + es;
    ArrayEvents(vs);
    ArrayVerdict(s, vs);
    RunConcat(w, inner, [EEndArray(n)]);
    RunConcat(w, [EStartArray], es);
    RunOne(w, EStartArray);
    StartStep(w, s, EStartArray);
    if CheckValue(s, EStartArray).Some? {
      Stuck(Run(w, [EStartArray]), es);
      Stuck(Run(w, inner), [EEndArray(n)]);
    } else {
      var c := Opened(NewContext(s), EStartArray);
      var x := w.(stack := RunStack(Push(c, AdvanceTop(w.stack)), [EStartArray]), path := BeginPath(w));
      assert Run(w, [EStartArray]) == x;
      RunStackTop(c, AdvanceTop(w.stack), [EStartArray]);
      ElementsRun(x, vs);
      if Run(x, es).valid {
        ArrayInner(c, AdvanceTop(w.stack), es, n);
        ArrayEndRun(w, Run(x, es), s, vs);
        RunOne(Run(x, es), EEndArray(n));
      } else {
        Stuck(Run(w, inner), [EEndArray(n)]);
      }
    }
  }

  lemma ArrayEvents(vs: seq<JSON>)
    ensures Events(Array(vs)) == [EStartArray] + ElementEvents(vs) + [EEndArray(|vs|)]
  {
    hide MemberEvents, ElementEvents, NumberEvent;
  }

  lemma RunStackTop(c: Context, below: Stack, es: seq<Event>)
    ensures RunStack(Push(c, below), es) == Push(RunContext(c, es), RunStack(below, es))
  {
  }

  /** The stack when the elements have passed, in one run from the fresh parallel validators. */
  lemma ArrayInner(c: Context, below: Stack, es: seq<Event>, n: nat)
    requires c.inArray
    ensures var x := RunStack(Push(c, below), [EStartArray]);
            && x.Push?
            && RunStack(Push(AdvanceBy(x.top, n), x.below), es) ==
               Push(RunContext(AdvanceBy(c, n), [EStartArray] + es), RunStack(below, [EStartArray] + es))
  {
    hide RunAll, ElementSchema;
    AdvanceByKeeps(c, n, [EStartArray]);
    RunStackConcat(Push(AdvanceBy(c, n), below), [EStartArray], es);
  }

  /** The end of an array whose elements have passed. */
  lemma {:induction false} ArrayEndRun(w: Validator, x: Validator, s: Schema, vs: seq<JSON>)
    requires var inner := [EStartArray] + ElementEvents(vs);
             var c := Opened(NewContext(s), EStartArray);
             x == w.(stack := Push(RunContext(AdvanceBy(c, |vs|), inner), RunStack(AdvanceTop(w.stack), inner)), path :=
                 BeginPath(w))
    requires w.valid && CheckValue(s, EStartArray).None? && ElementsAccepted(s, 0, vs)
    ensures var e, v := EEndArray(|vs|), Array(vs);
            && Step(x, e).valid == Accepts(s, v)
            && (Accepts(s, v) ==> Step(x, e) == Passed(w, Events(v)))
    decreases Array(vs), Height(s), 2
  {
    hide Run, Step, CheckValue, Height, RunAll, FreshAll, Valids, Verdicts, PopToken, BeginPath, CheckEndArray,
         CheckEndValue,
         AdvanceBy, ElementsAccepted, RunStack, AdvanceTop, Events;
    var inner, e := [EStartArray] + ElementEvents(vs), EEndArray(|vs|);
    var c := Opened(NewContext(s), EStartArray);
    ArrayEvents(vs);
    AdvanceByKeeps(c, |vs|, []);
    EndArrayStep(x, RunStack(AdvanceTop(w.stack), inner), RunContext(AdvanceBy(c, |vs|), inner), |vs|);
    RunAllConcat(FreshAll(s.subs), inner, [e]);
    RunStackConcat(AdvanceTop(w.stack), inner, [e]);
    SubsHeight(s);
    VerdictsRun(s.subs, Array(vs));
    ArrayVerdict(s, vs);
  }

  lemma ArrayVerdict(s: Schema, vs: seq<JSON>)
    ensures Accepts(s, Array(vs)) ==
            (CheckValue(s, EStartArray).None? && ElementsAccepted(s, 0, vs) && CheckEndArray(s, |vs|).None? &&
             CheckEndValue(s, Verdicts(s.subs, Array(vs))).None?)
  {
    hide CheckValue, ElementsAccepted, CheckEndArray, CheckEndValue, Verdicts, ElementEvents;
  }

  // ---- Objects ----

  /** The context of an object after some members. */
  function KeyedBy(c: Context, ms: seq<Member>): Context
    decreases |ms|
  {
    if ms == [] then c else KeyedBy(Keyed(c, ms[0].name), ms[1..])
  }

  lemma {:induction false} KeyedByKeeps(c: Context, ms: seq<Member>, es: seq<Event>)
    ensures KeyedBy(RunContext(c, es), ms) == RunContext(KeyedBy(c, ms), es)
    ensures var d := KeyedBy(c, ms);
            && d.schema == c.schema && d.validators == c.validators && d.inArray == c.inArray
            && d.propertyExist == ExistAfter(c.schema, c.propertyExist, ms)
    decreases |ms|
  {
    hide RunAll, MemberSchema, MarkExist;
    if ms != [] {
      assert Keyed(RunContext(c, es), ms[0].name) == RunContext(Keyed(c, ms[0].name), es);
      KeyedByKeeps(Keyed(c, ms[0].name), ms[1..], es);
    }
  }

  lemma NoMembers(c: Context, below: Stack)
    ensures RunStack(Push(KeyedBy(c, []), below), []) == Push(c, below)
  {
    hide RunStack;
    RunStackNone(Push(c, below));
  }

  lemma MoreMembers(c: Context, below: Stack, m: Member, first: seq<Event>, others: seq<Event>, rest: seq<Member>)
    ensures var x := RunStack(Push(Keyed(c, m.name), below), first);
            && x.Push? && x.top == RunContext(Keyed(c, m.name), first)
            && RunStack(Push(KeyedBy(x.top, rest), x.below), others) ==
               RunStack(Push(KeyedBy(c, [m] + rest), below), first + others)
  {
    hide RunAll, MemberSchema, MarkExist;
    assert ([m] + rest)[1..] == rest;
    KeyedByKeeps(Keyed(c, m.name), rest, first);
    RunStackConcat(Push(KeyedBy(Keyed(c, m.name), rest), below), first, others);
  }

  /** One member: its key chooses the schema, its value is judged by it, and its token is gone. */
  lemma {:induction false} MemberRun(w: Validator, m: Member)
    requires w.valid && w.stack.Push? && !w.stack.top.inArray
    ensures var c, es := w.stack.top, [EKey(m.name)] + Events(m.value);
            var chosen := MemberSchema(c.schema, m.name);
            && Run(w, es).valid == (chosen.Some? && Accepts(chosen.value, m.value))
            && (Run(w, es).valid ==> Run(w, es) == w.(stack := RunStack(Push(Keyed(c, m.name), w.stack.below), es)))
    decreases m, 5
  {
    hide Run, Step, Accepts, Events, RunAll, PopToken, NameToken, MemberSchema, RunStack, MarkExist;
    var c, key, es := w.stack.top, EKey(m.name), Events(m.value);
    RunConcat(w, [key], es);
    RunOne(w, key);
    KeyStep(w, m.name);
    if MemberSchema(c.schema, m.name).None? {
      Stuck(Run(w, [key]), es);
    } else {
      var s := MemberSchema(c.schema, m.name).value;
      RunStackTop(Keyed(c, m.name), w.stack.below, [key]);
      var x := Step(w, key);
      ValueRun(x, s, m.value);
      PopName(w.path, m.name);
      AdvanceObject(x.stack);
      RunStackConcat(Push(Keyed(c, m.name), w.stack.below), [key], es);
    }
  }

  lemma AdvanceObject(stack: Stack)
    requires stack.Push? && !stack.top.inArray
    ensures AdvanceTop(stack) == stack
  {
  }

  lemma {:induction false} MembersRun(w: Validator, ms: seq<Member>)
    requires w.valid && w.stack.Push? && !w.stack.top.inArray
    ensures var c, r := w.stack.top, Run(w, MemberEvents(ms));
            && r.valid == MembersAccepted(c.schema, ms)
            && (r.valid ==> r == w.(stack := RunStack(Push(KeyedBy(c, ms), w.stack.below), MemberEvents(ms))))
    decreases ms, 0, 0
  {
    hide Run, Step, Accepts, Events, RunAll, PopToken, NameToken, MemberSchema, RunStack, MarkExist, KeyedBy;
    var c, below := w.stack.top, w.stack.below;
    if ms == [] {
      RunNone(w);
      NoMembers(c, below);
    } else {
      var m, rest := ms[0], ms[1..];
      var es := [EKey(m.name)] + Events(m.value);
      assert ms == [m] + rest;
      RunConcat(w, es, MemberEvents(rest));
      MemberRun(w, m);
      if Run(w, es).valid {
        var x := w.(stack := RunStack(Push(Keyed(c, m.name), below), es));
        MoreMembers(c, below, m, es, MemberEvents(rest), rest);
        MembersRun(x, rest);
      } else {
        Stuck(Run(w, es), MemberEvents(rest));
      }
    }
  }

  lemma {:induction false} ObjectRun(w: Validator, s: Schema, ms: seq<Member>)
    requires w.valid && ValueSchema(w) == Some(s)
    ensures var v := Object(ms);
            && Run(w, Events(v)).valid == Accepts(s, v)
            && (Accepts(s, v) ==> Run(w, Events(v)) == Passed(w, Events(v)))
    decreases Object(ms), Height(s), 3
  {
    hide Run, Step, CheckValue, Height, ValueSchema, RunAll, FreshAll, Valids, Verdicts, PopToken, BeginPath,
         CheckEndObject, CheckEndValue,
         KeyedBy, MembersAccepted, RunStack, AdvanceTop, Events, NoneExist, ExistAfter;
    var es, n := MemberEvents(ms), |ms|;
    var inner := [EStartObject] + es;
    ObjectEvents(ms);
    ObjectVerdict(s, ms);
    RunConcat(w, inner, [EEndObject(n)]);
    RunConcat(w, [EStartObject], es);
    RunOne(w, EStartObject);
    StartStep(w, s, EStartObject);
    if CheckValue(s, EStartObject).Some? {
      Stuck(Run(w, [EStartObject]), es);
      Stuck(Run(w, inner), [EEndObject(n)]);
    } else {
      var c := Opened(NewContext(s), EStartObject);
      var x := w.(stack := RunStack(Push(c, AdvanceTop(w.stack)), [EStartObject]), path := BeginPath(w));
      assert Run(w, [EStartObject]) == x;
      RunStackTop(c, AdvanceTop(w.stack), [EStartObject]);
      MembersRun(x, ms);
      if Run(x, es).valid {
        ObjectInner(c, AdvanceTop(w.stack), es, ms);
        ObjectEndRun(w, Run(x, es), s, ms);
        RunOne(Run(x, es), EEndObject(n));
      } else {
        Stuck(Run(w, inner), [EEndObject(n)]);
      }
    }
  }

  lemma ObjectEvents(ms: seq<Member>)
    ensures Events(Object(ms)) == [EStartObject] + MemberEvents(ms) + [EEndObject(|ms|)]
  {
    hide MemberEvents, ElementEvents, NumberEvent;
  }

  lemma ObjectInner(c: Context, below: Stack, es: seq<Event>, ms: seq<Member>)
    ensures var x := RunStack(Push(c, below), [EStartObject]);
            && x.Push?
            && RunStack(Push(KeyedBy(x.top, ms), x.below), es) ==
               Push(RunContext(KeyedBy(c, ms), [EStartObject] + es), RunStack(below, [EStartObject] + es))
  {
    hide RunAll, MemberSchema, MarkExist;
    KeyedByKeeps(c, ms, [EStartObject]);
    RunStackConcat(Push(KeyedBy(c, ms), below), [EStartObject], es);
  }

  /** The end of an object whose members have passed. */
  lemma {:induction false} ObjectEndRun(w: Validator, x: Validator, s: Schema, ms: seq<Member>)
    requires var inner := [EStartObject] + MemberEvents(ms);
             var c := Opened(NewContext(s), EStartObject);
             x == w.(stack := Push(RunContext(KeyedBy(c, ms), inner), RunStack(AdvanceTop(w.stack), inner)), path :=
                 BeginPath(w))
    requires w.valid && CheckValue(s, EStartObject).None? && MembersAccepted(s, ms)
    ensures var e, v := EEndObject(|ms|), Object(ms);
            && Step(x, e).valid == Accepts(s, v)
            && (Accepts(s, v) ==> Step(x, e) == Passed(w, Events(v)))
    decreases Object(ms), Height(s), 2
  {
    hide Run, Step, CheckValue, Height, RunAll, FreshAll, Valids, Verdicts, PopToken, BeginPath, CheckEndObject,
         CheckEndValue,
         KeyedBy, MembersAccepted, RunStack, AdvanceTop, Events, NoneExist, ExistAfter;
    var inner, e := [EStartObject] + MemberEvents(ms), EEndObject(|ms|);
    var c := Opened(NewContext(s), EStartObject);
    ObjectEvents(ms);
    KeyedByKeeps(c, ms, []);
    EndObjectStep(x, RunStack(AdvanceTop(w.stack), inner), RunContext(KeyedBy(c, ms), inner), |ms|);
    RunAllConcat(FreshAll(s.subs), inner, [e]);
    RunStackConcat(AdvanceTop(w.stack), inner, [e]);
    SubsHeight(s);
    VerdictsRun(s.subs, Object(ms));
    ObjectVerdict(s, ms);
  }

  lemma ObjectVerdict(s: Schema, ms: seq<Member>)
    ensures Accepts(s, Object(ms)) ==
            (CheckValue(s, EStartObject).None? && MembersAccepted(s, ms) &&
             CheckEndObject(s, ExistAfter(s, NoneExist(s), ms), Verdicts(s.subs, Object(ms)), |ms|).None? &&
             CheckEndValue(s, Verdicts(s.subs, Object(ms))).None?)
  {
    hide CheckValue, MembersAccepted, CheckEndObject, CheckEndValue, Verdicts, MemberEvents, NoneExist, ExistAfter;
  }

  /** From a fresh validator the events of a value leave it valid exactly if the compiled schema accepts the value. */
  lemma StreamingIsRecursive(s: Schema, v: JSON)
    ensures Run(Fresh(s), Events(v)).valid == Accepts(s, v)
    ensures Accepts(s, v) ==> Run(Fresh(s), Events(v)) == Fresh(s)
  {
    hide Run, Accepts, Events;
    ValueRun(Fresh(s), s, v);
  }
}
