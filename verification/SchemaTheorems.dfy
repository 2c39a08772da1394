/** Streaming validation against documents: parsed text, and how far the verdict is that of JSON Schema draft 4. */
module SchemaTheorems {
  import opened Bytes
  import opened Json
  import opened Schemas
  import opened SchemaDocument
  import opened SchemaMeaning
  import opened Validators
  import Scanner
  import Recursive
  import Discipline
  import Validation

  // ---- How a number is reported does not matter ----

  lemma CheckCanonical(s: Schema, e: Event)
    ensures CheckValue(s, e) == CheckValue(s, Canonical(e))
  {
    hide CheckNumber, CheckValue;
    if (e.EInt? || e.EUint? || e.EInt64? || e.EUint64?) && InKind(e) {
      NumberCheckExact(s, e);
      NumberCheckExact(s, Canonical(e));
    } else if e.ERawNumber? {
      RawCheck(s, e);
    }
  }

  lemma RawCheck(s: Schema, e: Event)
    requires e.ERawNumber?
    ensures CheckValue(s, e) == CheckValue(s, EString(e.lexeme))
  {
  }

  lemma HandleBeginCanonical(w: Validator, e: Event)
    requires Validation.Begins(e)
    ensures HandleBegin(w, e) == HandleBegin(w, Canonical(e))
  {
    hide CheckValue, BeginValue, NoneExist, FreshAll;
    if BeginValue(w).stack.Push? {
      CheckCanonical(BeginValue(w).stack.top.schema, e);
    }
  }

  lemma CanonicalKind(e: Event)
    ensures !Validation.Begins(e) || e.EStartObject? || e.EStartArray? ==> Canonical(e) == e
    ensures Validation.Begins(e) && !e.EStartObject? && !e.EStartArray? ==>
              Validation.Begins(Canonical(e)) && !Canonical(e).EStartObject? && !Canonical(e).EStartArray?
  {
  }

  lemma BeforeCanonical(w: Validator, e: Event)
    ensures Before(w, e) == Before(w, Canonical(e))
  {
    hide HandleBegin, HandleKey;
    CanonicalKind(e);
    if Validation.Begins(e) {
      HandleBeginCanonical(w, e);
    }
  }

  lemma AfterCanonical(w: Validator, e: Event)
    ensures After(w, e) == After(w, Canonical(e))
  {
    hide EndValue, HandleEndArray, HandleEndObject;
    CanonicalKind(e);
  }

  /** A validator behaves the same whichever of the integer events reports a number. */
  lemma {:induction false} StepCanonical(w: Validator, e: Event)
    ensures Step(w, e) == Step(w, Canonical(e))
    decreases Rank(w), 0, w.stack, 0
  {
    hide Before, After, FeedStack, Canonical, Rank, StackRank;
    var b := Before(w, e);
    BeforeCanonical(w, e);
    if w.valid && b.valid {
      BeforeRank(w, e);
      FeedStackCanonical(b.stack, e);
      AfterCanonical(b.(stack := FeedStack(b.stack, e)), e);
    }
  }

  lemma {:induction false} FeedStackCanonical(stack: Stack, e: Event)
    ensures FeedStack(stack, e) == FeedStack(stack, Canonical(e))
    decreases StackRank(stack), 2, stack, 0
  {
    hide Feed, Canonical, Ranks;
    if stack.Push? {
      assert Ranks(stack.top.validators) <= ContextRank(stack.top) <= StackRank(stack);
      FeedCanonical(stack.top.validators, e);
      FeedStackCanonical(stack.below, e);
    }
  }

  lemma {:induction false} FeedCanonical(vs: seq<Validator>, e: Event)
    ensures Feed(vs, e) == Feed(vs, Canonical(e))
    decreases Ranks(vs), 1, Empty, |vs|
  {
    hide Step, Canonical, Rank;
    if vs != [] {
      StepCanonical(vs[0], e);
      FeedCanonical(vs[1..], e);
    }
  }

  lemma {:induction false} RunCanonical(w: Validator, es: seq<Event>)
    ensures Run(w, es) == Run(w, CanonicalAll(es))
    decreases |es|
  {
    hide Step, Canonical;
    if es != [] {
      StepCanonical(w, es[0]);
      assert CanonicalAll(es)[1..] == CanonicalAll(es[1..]);
      RunCanonical(Step(w, es[0]), es[1..]);
    }
  }

  // ---- The validator against the document ----

  /** Feeding the events of a value, numbers reported by whatever kind, leaves the validator valid exactly if the value
      meets the document; and then the validator is as it began. */
  lemma StreamingMeetsDocument(k: Keywords, v: JSON, es: seq<Event>)
    requires WellFormed(k) && NoReals(v) && Sized(v) && CanonicalAll(es) == Events(v)
    ensures Run(Fresh(Compile(k)), es).valid == Satisfies(RapidJson, k, v)
    ensures Satisfies(RapidJson, k, v) ==> Run(Fresh(Compile(k)), es) == Fresh(Compile(k))
  {
    hide Run, Compile, Satisfies, WellFormed, NoReals, Sized, Accepts, Events, CanonicalAll;
    RunCanonical(Fresh(Compile(k)), es);
    Validation.StreamingIsRecursive(Compile(k), v);
    CompiledAccepts(k, v);
  }

  /** A reader that stops at the first event the validator refuses leaves it as the whole log would: verdict, keyword
      and path. */
  lemma StoppedEarly(w: Validator, es: seq<Event>, n: nat)
    requires n <= |es| && !Run(w, es[..n]).valid
    ensures Run(w, es[..n]) == Run(w, es)
  {
    hide Run;
    assert es == es[..n] + es[n..];
    Validation.RunConcat(w, es[..n], es[n..]);
    Validation.Stuck(Run(w, es[..n]), es[n..]);
  }

  /** Validation while parsing: the events of a parsed text are judged as the value that the text denotes, also where
      the reader stops at the first one refused. */
  lemma ParsedTextIsValidated(k: Keywords, f: Scanner.Flags, t: Text) returns (v: JSON)
    requires WellFormed(k)
    ensures var r := Recursive.Parse(f, t);
            r.Ok? ==>
              && CanonicalAll(r.log) == Events(v)
              && (NoReals(v) && Sized(v) ==> Run(Fresh(Compile(k)), r.log).valid == Satisfies(RapidJson, k, v))
              && forall n | 0 <= n <= |r.log| && !Run(Fresh(Compile(k)), r.log[..n]).valid ::
                   Run(Fresh(Compile(k)), r.log[..n]) == Run(Fresh(Compile(k)), r.log)
  {
    hide Run, Compile, Satisfies, WellFormed, NoReals, Sized, Recursive.Parse, Events, CanonicalAll;
    v := Discipline.ParseReports(f, t);
    var r := Recursive.Parse(f, t);
    if r.Ok? && NoReals(v) && Sized(v) {
      StreamingMeetsDocument(k, v, r.log);
    }
    if r.Ok? {
      var w := Fresh(Compile(k));
      forall n | 0 <= n <= |r.log| && !Run(w, r.log[..n]).valid ensures Run(w, r.log[..n]) == Run(w, r.log) {
        StoppedEarly(w, r.log, n);
      }
    }
  }

  // ---- How far this is draft 4 ----

  /** Every name that required or dependencies mention is declared in properties. */
  ghost predicate MentionsDeclared(k: Keywords) {
    forall name :: Mentioned(k, name) ==> FindDeclared(k.properties, name) < |k.properties|
  }

  predicate SmallLimit(limit: Option<nat>) {
    limit.Some? ==> limit.value <= UINT_MAX
  }

  /** No keyword of the schema falls under one of the three departures from draft 4. */
  ghost predicate PortableHere(k: Keywords) {
    && (k.additionalProperties.Allowed? || MentionsDeclared(k))
    && (k.items == Tuple([]) ==> k.additionalItems.Allowed?)
    && SmallLimit(k.minItems) && SmallLimit(k.minProperties)
  }

  ghost predicate Portable(k: Keywords)
    decreases k, 1
  {
    && PortableHere(k)
    && AllPortable(k.allOf) && AllPortable(k.anyOf) && AllPortable(k.oneOf)
    && (k.negated.Some? ==> Portable(k.negated.value))
    && (forall i :: 0 <= i < |k.properties| ==> Portable(k.properties[i].schema))
    && (forall i :: 0 <= i < |k.dependencies| && k.dependencies[i].OnSchema? ==> Portable(k.dependencies[i].schema))
    && (k.additionalProperties.Must? ==> Portable(k.additionalProperties.schema))
    && (k.additionalItems.Must? ==> Portable(k.additionalItems.schema))
    && (k.items.EachItem? ==> Portable(k.items.schema))
    && (k.items.Tuple? ==> AllPortable(k.items.schemas))
  }

  ghost predicate AllPortable(ks: seq<Keywords>)
    decreases ks, 0
  {
    forall i :: 0 <= i < |ks| ==> Portable(ks[i])
  }

  lemma {:induction false} DialectsAgreeAll(ks: seq<Keywords>, v: JSON)
    requires AllPortable(ks) && Sized(v)
    ensures AllSatisfied(RapidJson, ks, v) == AllSatisfied(Draft4, ks, v)
    ensures SomeSatisfied(RapidJson, ks, v) == SomeSatisfied(Draft4, ks, v)
    ensures OneSatisfied(RapidJson, ks, v) == OneSatisfied(Draft4, ks, v)
    decreases v, ks, 5
  {
    hide Satisfies, Sized, Portable, AllSatisfied, SomeSatisfied, OneSatisfied;
    forall i | 0 <= i < |ks| ensures Satisfies(RapidJson, ks[i], v) == Satisfies(Draft4, ks[i], v) {
      DialectsAgree(ks[i], v);
    }
    OneAgrees(RapidJson, Draft4, ks, v);
    OneAgrees(Draft4, RapidJson, ks, v);
    SomeAgrees(RapidJson, Draft4, ks, v);
    SomeAgrees(Draft4, RapidJson, ks, v);
    AllAgrees(RapidJson, Draft4, ks, v);
    AllAgrees(Draft4, RapidJson, ks, v);
  }

  lemma AllAgrees(d: Dialect, e: Dialect, ks: seq<Keywords>, v: JSON)
    requires forall i :: 0 <= i < |ks| ==> Satisfies(d, ks[i], v) == Satisfies(e, ks[i], v)
    ensures AllSatisfied(d, ks, v) ==> AllSatisfied(e, ks, v)
  {
    hide Satisfies;
  }

  lemma OneAgrees(d: Dialect, e: Dialect, ks: seq<Keywords>, v: JSON)
    requires forall i :: 0 <= i < |ks| ==> Satisfies(d, ks[i], v) == Satisfies(e, ks[i], v)
    ensures OneSatisfied(d, ks, v) ==> OneSatisfied(e, ks, v)
  {
    hide Satisfies;
    if OneSatisfied(d, ks, v) {
      var i :| 0 <= i < |ks| && Satisfies(d, ks[i], v) && forall j :: 0 <= j < |ks| && j != i ==>
          !Satisfies(d, ks[j], v);
      assert Satisfies(e, ks[i], v);
    }
  }

  lemma SomeAgrees(d: Dialect, e: Dialect, ks: seq<Keywords>, v: JSON)
    requires forall i :: 0 <= i < |ks| ==> Satisfies(d, ks[i], v) == Satisfies(e, ks[i], v)
    ensures SomeSatisfied(d, ks, v) ==> SomeSatisfied(e, ks, v)
  {
    hide Satisfies;
    if i :| 0 <= i < |ks| && Satisfies(d, ks[i], v) {
      assert Satisfies(e, ks[i], v);
    }
  }

  lemma {:induction false} DialectsAgreeMember(k: Keywords, name: Text, v: JSON)
    requires Portable(k) && Sized(v)
    ensures MemberSatisfied(RapidJson, k, name, v) == MemberSatisfied(Draft4, k, name, v)
    decreases v, k, 6
  {
    hide Satisfies, Sized, Mentioned, FindDeclared, AllPortable;
    var i := FindDeclared(k.properties, name);
    if i < |k.properties| {
      DialectsAgree(k.properties[i].schema, v);
    } else if k.additionalProperties.Must? {
      DialectsAgree(k.additionalProperties.schema, v);
    }
  }

  lemma {:induction false} DialectsAgreeElement(k: Keywords, index: nat, v: JSON)
    requires Portable(k) && Sized(v)
    ensures ElementSatisfied(RapidJson, k, index, v) == ElementSatisfied(Draft4, k, index, v)
    decreases v, k, 6
  {
    hide Satisfies, Sized, MentionsDeclared;
    if k.additionalItems.Must? {
      DialectsAgree(k.additionalItems.schema, v);
    }
    match k.items
    case AnyItems =>
    case EachItem(t) => DialectsAgree(t, v);
    case Tuple(ss) =>
      if index < |ss| {
        DialectsAgree(ss[index], v);
      }
  }

  lemma {:induction false} DialectsAgreeElements(k: Keywords, index: nat, vs: seq<JSON>)
    requires Portable(k) && AllSized(vs)
    ensures ElementsSatisfied(RapidJson, k, index, vs) == ElementsSatisfied(Draft4, k, index, vs)
    decreases vs
  {
    hide ElementSatisfied, Sized, Portable;
    if vs != [] {
      DialectsAgreeElement(k, index, vs[0]);
      DialectsAgreeElements(k, index + 1, vs[1..]);
    }
  }

  lemma {:induction false} DialectsAgreeMembers(k: Keywords, ms: seq<Member>)
    requires Portable(k) && AllMembersSized(ms)
    ensures MembersSatisfied(RapidJson, k, ms) == MembersSatisfied(Draft4, k, ms)
    decreases ms
  {
    hide MemberSatisfied, Sized, Portable;
    if ms != [] {
      DialectsAgreeMember(k, ms[0].name, ms[0].value);
      DialectsAgreeMembers(k, ms[1..]);
    }
  }

  lemma {:induction false} DialectsAgreeDependencies(k: Keywords, v: JSON)
    requires Portable(k) && Sized(v) && v.Object?
    ensures DependenciesSatisfied(RapidJson, k, v) == DependenciesSatisfied(Draft4, k, v)
    decreases v, k, 3
  {
    hide Satisfies, Sized, AllPortable, PortableHere, AllOccur, Occurs;
    forall i | 0 <= i < |k.dependencies|
      ensures DependencySatisfied(RapidJson, k.dependencies[i], v) == DependencySatisfied(Draft4, k.dependencies[i], v)
    {
      if k.dependencies[i].OnSchema? {
        DialectsAgree(k.dependencies[i].schema, v);
      }
    }
  }

  lemma LimitsAgree(n: nat, limit: Option<nat>)
    requires SmallLimit(limit)
    ensures AtLeast(RapidJson, n, limit) == AtLeast(Draft4, n, limit)
  {
  }

  /** On a schema free of the three departures the verdict is that of draft 4. */
  lemma {:induction false} DialectsAgree(k: Keywords, v: JSON)
    requires Portable(k) && Sized(v)
    ensures Satisfies(RapidJson, k, v) == Satisfies(Draft4, k, v)
    decreases v, k, 4
  {
    hide KindSatisfied, NumberSatisfied, AtLeast, AtMost, AllOccur, ElementsSatisfied, MembersSatisfied,
         DependenciesSatisfied, AllSatisfied,
         SomeSatisfied, OneSatisfied, AllPortable, MentionsDeclared, SmallLimit;
    DialectsAgreeAll(k.allOf, v);
    DialectsAgreeAll(k.anyOf, v);
    DialectsAgreeAll(k.oneOf, v);
    if k.negated.Some? {
      DialectsAgree(k.negated.value, v);
    }
    match v
    case Array(vs) =>
      LimitsAgree(|vs|, k.minItems);
      DialectsAgreeElements(k, 0, vs);
    case Object(ms) =>
      LimitsAgree(|ms|, k.minProperties);
      DialectsAgreeMembers(k, ms);
      DialectsAgreeDependencies(k, v);
    case _ =>
  }

  /** Feeding the events of a value to a validator of a portable schema decides validity under draft 4. */
  lemma StreamingDecidesDraft4(k: Keywords, v: JSON, es: seq<Event>)
    requires WellFormed(k) && Portable(k) && NoReals(v) && Sized(v) && CanonicalAll(es) == Events(v)
    ensures Run(Fresh(Compile(k)), es).valid == Satisfies(Draft4, k, v)
  {
    hide Run, Compile, Satisfies, WellFormed, NoReals, Sized, Events, CanonicalAll, Portable;
    StreamingMeetsDocument(k, v, es);
    DialectsAgree(k, v);
  }

  const NO_KEYWORDS: Keywords := Keywords(
    None, [], [], [], None, [], [], [], Allowed, None, None, AnyItems, Allowed, None, None, None, None, false, false,
        None)

  // ---- The three departures ----

  /** The check of a member is draft 4's on all values exactly if the name is declared or not mentioned, or if
      additional members are not restricted anyway. */
  lemma MentionedNameExact(k: Keywords, name: Text)
    requires forall i :: 0 <= i < |k.properties| ==> Portable(k.properties[i].schema)
    requires k.additionalProperties.Must? ==> Portable(k.additionalProperties.schema)
    ensures (forall v | Sized(v) :: MemberSatisfied(RapidJson, k, name, v) == MemberSatisfied(Draft4, k, name, v)) <==>
            FindDeclared(k.properties, name) < |k.properties| || !Mentioned(k, name) ||
                RejectsNothing(k.additionalProperties)
  {
    hide Satisfies, Sized, Mentioned, FindDeclared, Portable, AdditionalSatisfied, MemberSatisfied;
    if FindDeclared(k.properties, name) < |k.properties| || !Mentioned(k, name) ||
        RejectsNothing(k.additionalProperties) {
      forall v | Sized(v) ensures MemberSatisfied(RapidJson, k, name, v) == MemberSatisfied(Draft4, k, name, v) {
        MemberDeparts(k, name, v);
      }
    } else {
      var v :| Sized(v) && !AdditionalSatisfied(Draft4, k.additionalProperties, v);
      MemberDeparts(k, name, v);
    }
  }

  /** The same for one value. */
  lemma MemberDeparts(k: Keywords, name: Text, v: JSON)
    requires forall i :: 0 <= i < |k.properties| ==> Portable(k.properties[i].schema)
    requires Sized(v) && (k.additionalProperties.Must? ==> Portable(k.additionalProperties.schema))
    ensures MemberSatisfied(RapidJson, k, name, v) == MemberSatisfied(Draft4, k, name, v) <==>
            FindDeclared(k.properties, name) < |k.properties| || !Mentioned(k, name) ||
                AdditionalSatisfied(Draft4, k.additionalProperties, v)
  {
    hide Satisfies, Sized, Mentioned, FindDeclared, Portable, AdditionalSatisfied;
    var i := FindDeclared(k.properties, name);
    if i < |k.properties| {
      DialectsAgree(k.properties[i].schema, v);
    } else {
      AdditionalAgrees(k.additionalProperties, v);
    }
  }

  /** No value is rejected. */
  ghost predicate RejectsNothing(a: Additional) {
    forall v | Sized(v) :: AdditionalSatisfied(Draft4, a, v)
  }

  lemma AdditionalAgrees(a: Additional, v: JSON)
    requires Sized(v) && (a.Must? ==> Portable(a.schema))
    ensures AdditionalSatisfied(RapidJson, a, v) == AdditionalSatisfied(Draft4, a, v)
  {
    hide Satisfies, Sized, Portable;
    if a.Must? {
      DialectsAgree(a.schema, v);
    }
  }

  /** The check of elements is draft 4's at all indices and on all values exactly if the tuple is not empty, or if
      additional elements are not restricted anyway. */
  lemma EmptyTupleExact(k: Keywords)
    requires k.items.EachItem? ==> Portable(k.items.schema)
    requires k.items.Tuple? ==> AllPortable(k.items.schemas)
    requires k.additionalItems.Must? ==> Portable(k.additionalItems.schema)
    ensures (forall index: nat, v | Sized(v) ::
            ElementSatisfied(RapidJson, k, index, v) == ElementSatisfied(Draft4, k, index, v)) <==>
            k.items != Tuple([]) || RejectsNothing(k.additionalItems)
  {
    hide Satisfies, Sized, AllPortable, Portable, AdditionalSatisfied, ElementSatisfied;
    if k.items != Tuple([]) || RejectsNothing(k.additionalItems) {
      forall index: nat, v | Sized(v) ensures ElementSatisfied(RapidJson, k, index, v) ==
          ElementSatisfied(Draft4, k, index, v) {
        ElementDeparts(k, index, v);
      }
    } else {
      var v :| Sized(v) && !AdditionalSatisfied(Draft4, k.additionalItems, v);
      ElementDeparts(k, 0, v);
      assert ElementSatisfied(RapidJson, k, 0, v) != ElementSatisfied(Draft4, k, 0, v);
    }
  }

  /** The same for one value. */
  lemma ElementDeparts(k: Keywords, index: nat, v: JSON)
    requires k.items.EachItem? ==> Portable(k.items.schema)
    requires k.items.Tuple? ==> AllPortable(k.items.schemas)
    requires Sized(v) && (k.additionalItems.Must? ==> Portable(k.additionalItems.schema))
    ensures ElementSatisfied(RapidJson, k, index, v) == ElementSatisfied(Draft4, k, index, v) <==>
            k.items != Tuple([]) || AdditionalSatisfied(Draft4, k.additionalItems, v)
  {
    hide Satisfies, Sized, Portable, AdditionalSatisfied;
    AdditionalAgrees(k.additionalItems, v);
    match k.items
    case AnyItems =>
    case EachItem(t) => DialectsAgree(t, v);
    case Tuple(ss) =>
      if index < |ss| {
        DialectsAgree(ss[index], v);
      }
  }

  /** A lower limit of a count is draft 4's for all 32-bit counts exactly if it is itself a 32-bit number. */
  lemma HugeLimitExact(limit: Option<nat>)
    ensures (forall n: nat | n <= UINT_MAX :: AtLeast(RapidJson, n, limit) == AtLeast(Draft4, n, limit)) <==>
            SmallLimit(limit)
  {
    if SmallLimit(limit) {
      forall n: nat | n <= UINT_MAX ensures AtLeast(RapidJson, n, limit) == AtLeast(Draft4, n, limit) {
        LimitsAgree(n, limit);
      }
    } else {
      assert AtLeast(RapidJson, 0, limit) != AtLeast(Draft4, 0, limit);
    }
  }

  lemma SingleMember(d: Dialect, k: Keywords, m: Member)
    ensures MembersSatisfied(d, k, [m]) == MemberSatisfied(d, k, m.name, m.value)
    ensures NoReals(m.value) ==> NoReals(Object([m]))
    ensures Sized(m.value) ==> Sized(Object([m]))
  {
    hide MemberSatisfied;
    assert [m][1..] == [];
    assert NoReals(m.value) ==> NoRealMembers([m]);
    assert Sized(m.value) ==> AllMembersSized([m]);
  }

  /** What the validator admits and draft 4 does not. */
  ghost predicate Departs(k: Keywords, v: JSON) {
    WellFormed(k) && Run(Fresh(Compile(k)), Events(v)).valid && !Satisfies(Draft4, k, v)
  }

  lemma StreamDeparts(k: Keywords, v: JSON)
    requires WellFormed(k) && NoReals(v) && Sized(v) && Satisfies(RapidJson, k, v) && !Satisfies(Draft4, k, v)
    ensures Departs(k, v)
  {
    hide Run, Compile, Events, Satisfies, WellFormed, NoReals, Sized;
    CompiledAccepts(k, v);
    Validation.StreamingIsRecursive(Compile(k), v);
  }

  /** {"required": ["a"], "additionalProperties": false} admits {"a": null}. */
  lemma RequiredCountsAsDeclared()
    ensures Departs(NO_KEYWORDS.(required := [[LETTER_A]], additionalProperties := Forbidden),
            Object([Member([LETTER_A], Null)]))
  {
    hide MemberSatisfied, FindDeclared, MembersSatisfied, Departs;
    var k := NO_KEYWORDS.(required := [[LETTER_A]], additionalProperties := Forbidden);
    var m := Member([LETTER_A], Null);
    assert Occurs([LETTER_A], [m]) by { assert [m][0].name == [LETTER_A]; }
    MentionedMember(k, [LETTER_A]);
    SingleMember(RapidJson, k, m);
    SingleMember(Draft4, k, m);
    StreamDeparts(k, Object([m]));
  }

  lemma MentionedMember(k: Keywords, name: Text)
    requires k.additionalProperties.Forbidden? && Mentioned(k, name) && k.properties == []
    ensures MemberSatisfied(RapidJson, k, name, Null) && !MemberSatisfied(Draft4, k, name, Null)
  {
    hide Mentioned, Satisfies;
  }

  /** {"items": [], "additionalItems": false} admits [null]. */
  lemma EmptyTupleIgnored()
    ensures Departs(NO_KEYWORDS.(items := Tuple([]), additionalItems := Forbidden), Array([Null]))
  {
    hide Departs;
    var k := NO_KEYWORDS.(items := Tuple([]), additionalItems := Forbidden);
    var vs: seq<JSON> := [Null];
    assert vs[1..] == [];
    assert ElementsSatisfied(RapidJson, k, 1, []) && ElementSatisfied(RapidJson, k, 0, Null) &&
           !ElementSatisfied(Draft4, k, 0, Null);
    assert AllSized([]) && NoRealElements([]);
    StreamDeparts(k, Array(vs));
  }

  /** {"minItems": 4294967296} admits [], and {"minProperties": 4294967296} admits {}. */
  lemma HugeLimitsIgnored()
    ensures Departs(NO_KEYWORDS.(minItems := Some(0x1_0000_0000)), Array([]))
    ensures Departs(NO_KEYWORDS.(minProperties := Some(0x1_0000_0000)), Object([]))
  {
    hide Departs;
    StreamDeparts(NO_KEYWORDS.(minItems := Some(0x1_0000_0000)), Array([]));
    StreamDeparts(NO_KEYWORDS.(minProperties := Some(0x1_0000_0000)), Object([]));
  }
}
