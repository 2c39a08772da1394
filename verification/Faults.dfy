/** What a failing run of the validator reports: the keyword, and the path of what was being checked. */
module Faults {
  import opened Bytes
  import opened Json
  import opened Schemas
  import opened Path
  import opened Validators
  import opened Validation

  datatype Fault = Fault(keyword: Keyword, path: Text)

  /** GetInvalidSchemaKeyword and GetInvalidDocumentPointer of an invalid validator. */
  function Reported(w: Validator): Option<Fault> {
    if w.valid || w.stack.Empty? || w.stack.top.invalidKeyword.None? then None
    else Some(Fault(w.stack.top.invalidKeyword.value, w.path))
  }

  function AtPath(keyword: Option<Keyword>, path: Text): Option<Fault> {
    if keyword.None? then None else Some(Fault(keyword.value, path))
  }

  function Or(a: Option<Fault>, b: Option<Fault>): Option<Fault> {
    if a.Some? then a else b
  }

  /** The first fault of a value at `path`, in document order, each sub-schema judged on its own. */
  function FaultOf(s: Schema, v: JSON, path: Text): Option<Fault>
    decreases v, 1
  {
    Or(AtPath(CheckValue(s, Events(v)[0]), path),
       Or(InnerFault(s, v, path), AtPath(CheckEndValue(s, Verdicts(s.subs, v)), path)))
  }

  function InnerFault(s: Schema, v: JSON, path: Text): Option<Fault>
    decreases v, 0
  {
    match v
    case Array(vs) => Or(ElementsFault(s, 0, vs, path), AtPath(CheckEndArray(s, |vs|), path))
    case Object(ms) =>
      Or(MembersFault(s, ms, path),
         AtPath(CheckEndObject(s, ExistAfter(s, NoneExist(s), ms), Verdicts(s.subs, v), |ms|), path))
    case _ => None
  }

  function ElementsFault(s: Schema, index: nat, vs: seq<JSON>, path: Text): Option<Fault>
    decreases vs
  {
    if vs == [] then None
    else
      var chosen := ElementSchema(s, index);
      var here := path + IndexToken(index);
      Or(if chosen.None? then Some(Fault(ItemsKeyword, here)) else FaultOf(chosen.value, vs[0], here),
         ElementsFault(s, index + 1, vs[1..], path))
  }

  function MembersFault(s: Schema, ms: seq<Member>, path: Text): Option<Fault>
    decreases ms
  {
    if ms == [] then None
    else
      var chosen := MemberSchema(s, ms[0].name);
      var here := path + NameToken(ms[0].name);
      Or(if chosen.None? then Some(Fault(AdditionalPropertiesKeyword, here))
          else FaultOf(chosen.value, ms[0].value, here),
         MembersFault(s, ms[1..], path))
  }

  // ---- No fault, no refusal ----

  lemma {:induction false} FaultIsRefusal(s: Schema, v: JSON, path: Text)
    ensures FaultOf(s, v, path).None? <==> Accepts(s, v)
    decreases v, 1
  {
    hide CheckValue, CheckEndValue, CheckEndArray, CheckEndObject, Verdicts, Events, ElementsAccepted, MembersAccepted,
         ExistAfter, NoneExist, ElementsFault, MembersFault;
    match v
    case Array(vs) => ElementsFaultIsRefusal(s, 0, vs, path);
    case Object(ms) => MembersFaultIsRefusal(s, ms, path);
    case _ =>
  }

  lemma {:induction false} ElementsFaultIsRefusal(s: Schema, index: nat, vs: seq<JSON>, path: Text)
    ensures ElementsFault(s, index, vs, path).None? <==> ElementsAccepted(s, index, vs)
    decreases vs, 0
  {
    hide Accepts, FaultOf, ElementSchema, IndexToken;
    if vs != [] {
      var chosen := ElementSchema(s, index);
      if chosen.Some? {
        FaultIsRefusal(chosen.value, vs[0], path + IndexToken(index));
      }
      ElementsFaultIsRefusal(s, index + 1, vs[1..], path);
    }
  }

  lemma {:induction false} MembersFaultIsRefusal(s: Schema, ms: seq<Member>, path: Text)
    ensures MembersFault(s, ms, path).None? <==> MembersAccepted(s, ms)
    decreases ms, 0
  {
    hide Accepts, FaultOf, MemberSchema, NameToken;
    if ms != [] {
      var chosen := MemberSchema(s, ms[0].name);
      if chosen.Some? {
        FaultIsRefusal(chosen.value, ms[0].value, path + NameToken(ms[0].name));
      }
      MembersFaultIsRefusal(s, ms[1..], path);
    }
  }

  // ---- Single steps ----

  lemma BeginFault(w: Validator, s: Schema, e: Event)
    requires w.valid && Begins(e) && ValueSchema(w) == Some(s) && CheckValue(s, e).Some?
    ensures !Step(w, e).valid && Reported(Step(w, e)) == AtPath(CheckValue(s, e), BeginPath(w))
  {
    hide CheckValue, Opened, AdvanceTop, FeedStack, ValueSchema, BeginPath;
  }

  lemma ItemsFault(w: Validator, e: Event)
    requires w.valid && Begins(e) && w.stack.Push? && ValueSchema(w).None?
    ensures !Step(w, e).valid && Reported(Step(w, e)) == Some(Fault(ItemsKeyword, BeginPath(w)))
  {
    hide CheckValue, ElementSchema, FeedStack, BeginPath;
  }

  lemma KeyFault(w: Validator, name: Text)
    requires w.valid && w.stack.Push? && MemberSchema(w.stack.top.schema, name).None?
    ensures !Step(w, EKey(name)).valid
    ensures Reported(Step(w, EKey(name))) == Some(Fault(AdditionalPropertiesKeyword, w.path + NameToken(name)))
  {
    hide MemberSchema, FeedStack, NameToken;
  }

  lemma EndFault(w: Validator, below: Stack, c: Context)
    requires w.valid && w.stack == Push(c, below)
    ensures Reported(EndValue(w)) == AtPath(CheckEndValue(c.schema, Valids(c.validators)), w.path)
  {
    hide CheckEndValue, Valids, PopToken;
  }

  lemma ArrayEndFault(w: Validator, below: Stack, c: Context, n: nat)
    requires w.valid && w.stack == Push(c, below)
    ensures var e := EEndArray(n);
            Reported(Step(w, e)) ==
            Or(AtPath(CheckEndArray(c.schema, n), w.path),
               AtPath(CheckEndValue(c.schema, Valids(RunAll(c.validators, [e]))), w.path))
  {
    hide CheckEndArray, CheckEndValue, Valids, RunAll, PopToken, FeedStack, Feed;
    FeedStackIsRun(w.stack, EEndArray(n));
  }

  lemma ObjectEndFault(w: Validator, below: Stack, c: Context, n: nat)
    requires w.valid && w.stack == Push(c, below)
    ensures var e := EEndObject(n);
            var valids := Valids(RunAll(c.validators, [e]));
            Reported(Step(w, e)) ==
            Or(AtPath(CheckEndObject(c.schema, c.propertyExist, valids, n), w.path),
               AtPath(CheckEndValue(c.schema, valids), w.path))
  {
    hide CheckEndObject, CheckEndValue, Valids, RunAll, PopToken, FeedStack, Feed;
    FeedStackIsRun(w.stack, EEndObject(n));
  }

  /** Once a run has failed, nothing changes what it reports. */
  lemma Kept(w: Validator, a: seq<Event>, b: seq<Event>)
    requires !Run(w, a).valid
    ensures Run(w, a + b) == Run(w, a)
  {
    hide Run;
    RunConcat(w, a, b);
    Stuck(Run(w, a), b);
  }

  lemma ValidReports(w: Validator)
    requires w.valid
    ensures Reported(w).None?
  {
  }

  // ---- Whole values ----

  /** In any state that expects a value of a schema, the run over its events reports exactly its first fault. */
  lemma {:induction false} FaultRun(w: Validator, s: Schema, v: JSON)
    requires w.valid && ValueSchema(w) == Some(s)
    ensures Reported(Run(w, Events(v))) == FaultOf(s, v, BeginPath(w))
    decreases v, 1
  {
    hide Run, Events, Accepts, FaultOf, ValueSchema, BeginPath, Passed, CheckValue;
    ValueRun(w, s, v);
    FaultIsRefusal(s, v, BeginPath(w));
    if Accepts(s, v) {
      ValidReports(Run(w, Events(v)));
    } else if CheckValue(s, Events(v)[0]).Some? {
      FirstFault(w, s, v);
    } else {
      match v
      case Array(vs) => ArrayFault(w, s, vs);
      case Object(ms) => ObjectFault(w, s, ms);
      case _ => ScalarFault(w, s, v);
    }
  }

  lemma FirstFault(w: Validator, s: Schema, v: JSON)
    requires w.valid && ValueSchema(w) == Some(s) && CheckValue(s, Events(v)[0]).Some?
    ensures Reported(Run(w, Events(v))) == FaultOf(s, v, BeginPath(w))
  {
    hide Run, Step, Events, ValueSchema, BeginPath, CheckValue, InnerFault, CheckEndValue, Verdicts;
    var es := Events(v);
    FirstBegins(v);
    BeginFault(w, s, es[0]);
    assert es == [es[0]] + es[1..];
    RunOne(w, es[0]);
    Kept(w, [es[0]], es[1..]);
  }

  lemma ScalarFault(w: Validator, s: Schema, v: JSON)
    requires w.valid && ValueSchema(w) == Some(s) && !v.Array? && !v.Object? && CheckValue(s, Events(v)[0]).None?
    ensures Reported(Run(w, Events(v))) == FaultOf(s, v, BeginPath(w))
  {
    hide Run, Step, CheckValue, ValueSchema, RunAll, FreshAll, Valids, AdvanceTop, CheckEndValue, Verdicts, PopToken,
         BeginPath, NumberEvent, EndValue, Events;
    var e := Events(v)[0];
    ScalarEvents(v);
    RunOne(w, e);
    ScalarStep(w, s, e);
    VerdictsRun(s.subs, v);
    var x := w.(stack := RunStack(BegunStack(w, s, e), [e]), path := BeginPath(w));
    EndFault(x, RunStack(AdvanceTop(w.stack), [e]), RunContext(Opened(NewContext(s), e), [e]));
    assert InnerFault(s, v, BeginPath(w)).None?;
  }

  lemma {:induction false} ElementsFaultRun(w: Validator, vs: seq<JSON>)
    requires w.valid && w.stack.Push? && w.stack.top.inArray
    ensures var c := w.stack.top;
            Reported(Run(w, ElementEvents(vs))) == ElementsFault(c.schema, c.arrayElementIndex, vs, w.path)
    decreases vs, 0
  {
    hide Run, Accepts, Events, RunAll, PopToken, IndexToken, ElementSchema, AdvanceBy, RunStack, FaultOf;
    var c, below := w.stack.top, w.stack.below;
    if vs == [] {
      RunNone(w);
    } else {
      var es, rest := Events(vs[0]), vs[1..];
      var chosen := ElementSchema(c.schema, c.arrayElementIndex);
      if chosen.None? {
        RefusedFault(w, vs[0]);
        Kept(w, es, ElementEvents(rest));
      } else {
        FaultRun(w, chosen.value, vs[0]);
        ValueRun(w, chosen.value, vs[0]);
        FaultIsRefusal(chosen.value, vs[0], BeginPath(w));
        if Accepts(chosen.value, vs[0]) {
          PopIndex(w.path, c.arrayElementIndex);
          var x := w.(stack := RunStack(Push(Advance(c), below), es));
          MoreElements(c, below, es, ElementEvents(rest), |rest|);
          ElementsFaultRun(x, rest);
          RunConcat(w, es, ElementEvents(rest));
        } else {
          Kept(w, es, ElementEvents(rest));
        }
      }
    }
  }

  lemma RefusedFault(w: Validator, v: JSON)
    requires w.valid && w.stack.Push? && ValueSchema(w).None?
    ensures !Run(w, Events(v)).valid && Reported(Run(w, Events(v))) == Some(Fault(ItemsKeyword, BeginPath(w)))
  {
    hide Run, Step, Events, ValueSchema, BeginPath;
    var es := Events(v);
    FirstBegins(v);
    ItemsFault(w, es[0]);
    assert es == [es[0]] + es[1..];
    RunOne(w, es[0]);
    Kept(w, [es[0]], es[1..]);
  }

  /** Whether the first check of the events of a container fails or not, what the rest begins with. */
  lemma {:induction false} ArrayFault(w: Validator, s: Schema, vs: seq<JSON>)
    requires w.valid && ValueSchema(w) == Some(s) && CheckValue(s, Events(Array(vs))[0]).None?
    ensures Reported(Run(w, Events(Array(vs)))) == FaultOf(s, Array(vs), BeginPath(w))
    decreases Array(vs), 0
  {
    hide Run, Step, CheckValue, ValueSchema, RunAll, FreshAll, Valids, Verdicts, PopToken, BeginPath, CheckEndArray,
         CheckEndValue, AdvanceBy, ElementsAccepted, RunStack, AdvanceTop, Events, ElementsFault;
    var es, n := ElementEvents(vs), |vs|;
    var end := EEndArray(n);
    var inner := [EStartArray] + es;
    ArrayEvents(vs);
    RunConcat(w, [EStartArray], es);
    RunOne(w, EStartArray);
    StartStep(w, s, EStartArray);
    var c := Opened(NewContext(s), EStartArray);
    var x := w.(stack := RunStack(Push(c, AdvanceTop(w.stack)), [EStartArray]), path := BeginPath(w));
    RunStackTop(c, AdvanceTop(w.stack), [EStartArray]);
    ElementsFaultRun(x, vs);
    ElementsRun(x, vs);
    ElementsFaultIsRefusal(s, 0, vs, BeginPath(w));
    if Run(x, es).valid {
      ArrayInner(c, AdvanceTop(w.stack), es, n);
      AdvanceByKeeps(c, n, []);
      RunConcat(w, inner, [end]);
      RunOne(Run(x, es), end);
      ArrayEndFault(Run(x, es), RunStack(AdvanceTop(w.stack), inner), RunContext(AdvanceBy(c, n), inner), n);
      RunAllConcat(FreshAll(s.subs), inner, [end]);
      VerdictsRun(s.subs, Array(vs));
    } else {
      Kept(w, inner, [end]);
    }
  }

  lemma {:induction false} MembersFaultRun(w: Validator, ms: seq<Member>)
    requires w.valid && w.stack.Push? && !w.stack.top.inArray
    ensures Reported(Run(w, MemberEvents(ms))) == MembersFault(w.stack.top.schema, ms, w.path)
    decreases ms, 0
  {
    hide Run, Step, Accepts, Events, RunAll, PopToken, NameToken, MemberSchema, RunStack, MarkExist, KeyedBy, FaultOf;
    var c, below := w.stack.top, w.stack.below;
    if ms == [] {
      RunNone(w);
    } else {
      var m, rest := ms[0], ms[1..];
      var es := [EKey(m.name)] + Events(m.value);
      assert ms == [m] + rest;
      MemberRun(w, m);
      MemberFaultRun(w, m);
      var chosen := MemberSchema(c.schema, m.name);
      if Run(w, es).valid {
        FaultIsRefusal(chosen.value, m.value, w.path + NameToken(m.name));
        var x := w.(stack := RunStack(Push(Keyed(c, m.name), below), es));
        MoreMembers(c, below, m, es, MemberEvents(rest), rest);
        MembersFaultRun(x, rest);
        RunConcat(w, es, MemberEvents(rest));
      } else {
        if chosen.Some? {
          FaultIsRefusal(chosen.value, m.value, w.path + NameToken(m.name));
        }
        Kept(w, es, MemberEvents(rest));
      }
    }
  }

  lemma {:induction false} MemberFaultRun(w: Validator, m: Member)
    requires w.valid && w.stack.Push? && !w.stack.top.inArray
    ensures var chosen, here := MemberSchema(w.stack.top.schema, m.name), w.path + NameToken(m.name);
            Reported(Run(w, [EKey(m.name)] + Events(m.value))) ==
            if chosen.None? then Some(Fault(AdditionalPropertiesKeyword, here))
                else FaultOf(chosen.value, m.value, here)
    decreases m, 2
  {
    hide Run, Step, Accepts, Events, RunAll, PopToken, NameToken, MemberSchema, RunStack, MarkExist, FaultOf;
    var c, key, es := w.stack.top, EKey(m.name), Events(m.value);
    RunConcat(w, [key], es);
    RunOne(w, key);
    KeyStep(w, m.name);
    if MemberSchema(c.schema, m.name).None? {
      KeyFault(w, m.name);
      Kept(w, [key], es);
    } else {
      RunStackTop(Keyed(c, m.name), w.stack.below, [key]);
      FaultRun(Step(w, key), MemberSchema(c.schema, m.name).value, m.value);
    }
  }

  lemma {:induction false} ObjectFault(w: Validator, s: Schema, ms: seq<Member>)
    requires w.valid && ValueSchema(w) == Some(s) && CheckValue(s, Events(Object(ms))[0]).None?
    ensures Reported(Run(w, Events(Object(ms)))) == FaultOf(s, Object(ms), BeginPath(w))
    decreases Object(ms), 0
  {
    hide Run, Step, CheckValue, ValueSchema, RunAll, FreshAll, Valids, Verdicts, PopToken, BeginPath, CheckEndObject,
         CheckEndValue, KeyedBy, MembersAccepted, RunStack, AdvanceTop, Events, NoneExist, ExistAfter, MembersFault;
    var es, n := MemberEvents(ms), |ms|;
    var end := EEndObject(n);
    var inner := [EStartObject] + es;
    ObjectEvents(ms);
    RunConcat(w, [EStartObject], es);
    RunOne(w, EStartObject);
    StartStep(w, s, EStartObject);
    var c := Opened(NewContext(s), EStartObject);
    var x := w.(stack := RunStack(Push(c, AdvanceTop(w.stack)), [EStartObject]), path := BeginPath(w));
    RunStackTop(c, AdvanceTop(w.stack), [EStartObject]);
    MembersFaultRun(x, ms);
    MembersRun(x, ms);
    MembersFaultIsRefusal(s, ms, BeginPath(w));
    if Run(x, es).valid {
      ObjectInner(c, AdvanceTop(w.stack), es, ms);
      KeyedByKeeps(c, ms, []);
      RunConcat(w, inner, [end]);
      RunOne(Run(x, es), end);
      ObjectEndFault(Run(x, es), RunStack(AdvanceTop(w.stack), inner), RunContext(KeyedBy(c, ms), inner), n);
      RunAllConcat(FreshAll(s.subs), inner, [end]);
      VerdictsRun(s.subs, Object(ms));
    } else {
      Kept(w, inner, [end]);
    }
  }
}
