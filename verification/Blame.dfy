/** Which keyword of a schema document a validator blames, and at which path, told from the document and the value. */
module Blame {
  import opened Bytes
  import opened Json
  import opened Schemas
  import opened SchemaDocument
  import opened SchemaMeaning
  import opened Path
  import opened Validators
  import opened Faults
  import SchemaTheorems

  // ---- One keyword ----

  /** The value breaks this keyword of the schema. items and additionalProperties are broken by what is inside. */
  predicate Violates(k: Keywords, word: Keyword, v: JSON) {
    match word
    case TypeKeyword => !KindSatisfied(k, v)
    case MinimumKeyword => v.Number? && !MinimumMet(k, v.n)
    case MaximumKeyword => v.Number? && !MaximumMet(k, v.n)
    case MultipleOfKeyword => v.Number? && !MultipleMet(k, v.n)
    case MinItemsKeyword => v.Array? && !AtLeast(RapidJson, |v.elements|, k.minItems)
    case MaxItemsKeyword => v.Array? && !AtMost(|v.elements|, k.maxItems)
    case RequiredKeyword => v.Object? && !AllOccur(k.required, v.members)
    case MinPropertiesKeyword => v.Object? && !AtLeast(RapidJson, |v.members|, k.minProperties)
    case MaxPropertiesKeyword => v.Object? && !AtMost(|v.members|, k.maxProperties)
    case DependenciesKeyword => v.Object? && !DependenciesSatisfied(RapidJson, k, v)
    case AllOfKeyword => !AllSatisfied(RapidJson, k.allOf, v)
    case AnyOfKeyword => k.anyOf != [] && !SomeSatisfied(RapidJson, k.anyOf, v)
    case OneOfKeyword => k.oneOf != [] && !OneSatisfied(RapidJson, k.oneOf, v)
    case NotKeyword => k.negated.Some? && Satisfies(RapidJson, k.negated.value, v)
    case ItemsKeyword => false
    case AdditionalPropertiesKeyword => false
  }

  /** The keywords looked at when a value begins, when an array or an object ends, and when any value ends. */
  const AT_BEGIN := [TypeKeyword, MinimumKeyword, MaximumKeyword, MultipleOfKeyword]
  const AT_END_ARRAY := [MinItemsKeyword, MaxItemsKeyword]
  const AT_END_OBJECT := [RequiredKeyword, MinPropertiesKeyword, MaxPropertiesKeyword, DependenciesKeyword]
  const AT_END := [AllOfKeyword, AnyOfKeyword, OneOfKeyword, NotKeyword]

  /** The first of the keywords that the value breaks. */
  function FirstBroken(k: Keywords, words: seq<Keyword>, v: JSON): (r: Option<Keyword>)
    ensures r.None? <==> forall i :: 0 <= i < |words| ==> !Violates(k, words[i], v)
    ensures r.Some? ==>
              exists i :: 0 <= i < |words| && words[i] == r.value && Violates(k, words[i], v) &&
                  forall j :: 0 <= j < i ==> !Violates(k, words[j], v)
  {
    if words == [] then None
    else if Violates(k, words[0], v) then Some(words[0])
    else FirstBroken(k, words[1..], v)
  }

  lemma BrokenCons(k: Keywords, word: Keyword, words: seq<Keyword>, v: JSON)
    ensures FirstBroken(k, [word] + words, v) == if Violates(k, word, v) then Some(word) else FirstBroken(k, words, v)
  {
    hide Violates;
    assert ([word] + words)[1..] == words;
  }

  lemma BrokenFour(k: Keywords, a: Keyword, b: Keyword, c: Keyword, d: Keyword, v: JSON)
    ensures FirstBroken(k, [a, b, c, d], v) ==
            if Violates(k, a, v) then Some(a) else if Violates(k, b, v) then Some(b)
            else if Violates(k, c, v) then Some(c) else if Violates(k, d, v) then Some(d) else None
  {
    hide Violates, FirstBroken;
    assert [a, b, c, d] == [a] + [b, c, d] && [b, c, d] == [b] + [c, d];
    BrokenCons(k, a, [b, c, d], v);
    BrokenCons(k, b, [c, d], v);
    BrokenTwo(k, c, d, v);
  }

  lemma BrokenTwo(k: Keywords, a: Keyword, b: Keyword, v: JSON)
    ensures FirstBroken(k, [a, b], v) ==
            if Violates(k, a, v) then Some(a) else if Violates(k, b, v) then Some(b) else None
  {
    hide Violates, FirstBroken;
    assert [a, b] == [a] + [b] && [b] == [b] + [];
    BrokenCons(k, a, [b], v);
    BrokenCons(k, b, [], v);
    BrokenNone(k, v);
  }

  lemma BrokenNone(k: Keywords, v: JSON)
    ensures FirstBroken(k, [], v) == None
  {
    hide Violates;
  }

  /** The check of the event that begins a value. */
  lemma BeginBlames(k: Keywords, v: JSON)
    requires NoReals(v) && (k.multipleOf.Some? ==> k.multipleOf.value > 0)
    ensures CheckValue(Compile(k), Events(v)[0]) == FirstBroken(k, AT_BEGIN, v)
  {
    hide Compile, CheckValue, Events, NumberEvent, KindSatisfied, MinimumMet, MaximumMet, MultipleMet, FirstBroken;
    BrokenFour(k, TypeKeyword, MinimumKeyword, MaximumKeyword, MultipleOfKeyword, v);
    if v.Number? {
      NumberBegins(v.n);
      NumberBlames(k, v.n);
    } else {
      KindBlames(k, v);
    }
  }

  lemma NumberBegins(n: Int64)
    ensures Events(Number(n))[0] == NumberEvent(n)
  {
    hide NumberEvent;
  }

  lemma KindBlames(k: Keywords, v: JSON)
    requires !v.Number? && !v.Real?
    ensures CheckValue(Compile(k), Events(v)[0]) == if KindSatisfied(k, v) then None else Some(TypeKeyword)
  {
    hide Compile, ElementEvents, MemberEvents, NumberEvent, KindSatisfied;
    match v
    case Null => OneKind(k, v, NullKind);
    case Bool(_) => OneKind(k, v, BooleanKind);
    case String(_) => OneKind(k, v, StringKind);
    case Array(_) => OneKind(k, v, ArrayKind);
    case Object(_) => OneKind(k, v, ObjectKind);
  }

  lemma NumberBlames(k: Keywords, n: Int64)
    requires k.multipleOf.Some? ==> k.multipleOf.value > 0
    ensures CheckValue(Compile(k), NumberEvent(n)) ==
            if !KindSatisfied(k, Number(n)) then Some(TypeKeyword)
            else if !MinimumMet(k, n) then Some(MinimumKeyword)
            else if !MaximumMet(k, n) then Some(MaximumKeyword)
            else if !MultipleMet(k, n) then Some(MultipleOfKeyword)
            else None
  {
    hide Compile, CheckValue, KindSatisfied, NumberEvent;
    var s := Compile(k);
    NumberLimits(k);
    NumberInKind(n);
    NumberCheckExact(s, NumberEvent(n));
    KindAdmitted(k, IntegerKind);
    KindAdmitted(k, NumberKind);
    NumberKinds(k, Number(n));
    if k.multipleOf.Some? {
      MagnitudeMultiple(n, k.multipleOf.value);
    }
  }

  /** The check of EndArray. */
  lemma EndArrayBlames(k: Keywords, v: JSON)
    requires Sized(v) && v.Array?
    ensures CheckEndArray(Compile(k), |v.elements|) == FirstBroken(k, AT_END_ARRAY, v)
  {
    hide Compile, FirstBroken;
    Presence(k);
    BrokenTwo(k, MinItemsKeyword, MaxItemsKeyword, v);
  }

  /** The check of EndObject. */
  lemma EndObjectBlames(k: Keywords, v: JSON)
    requires WellFormed(k) && NoReals(v) && Sized(v) && v.Object?
    ensures var s := Compile(k);
            CheckEndObject(s, ExistAfter(s, NoneExist(s), v.members), Verdicts(s.subs, v), |v.members|) ==
            FirstBroken(k, AT_END_OBJECT, v)
  {
    hide Compile, TableNames, Occurs, ExistAfter, NoneExist, Satisfies, Accepts, NoReals, WellFormed, MissesDependency,
         MissesRequired, DependenciesSatisfied, AllOccur, FirstBroken;
    Presence(k);
    RequiredChecked(k, v.members);
    DependenciesChecked(k, v);
    BrokenFour(k, RequiredKeyword, MinPropertiesKeyword, MaxPropertiesKeyword, DependenciesKeyword, v);
  }

  /** The check at the end of every value. */
  lemma EndValueBlames(k: Keywords, v: JSON)
    requires WellFormed(k) && NoReals(v) && Sized(v)
    ensures CheckEndValue(Compile(k), Verdicts(Compile(k).subs, v)) == FirstBroken(k, AT_END, v)
  {
    hide Satisfies, Compile, CountHolding, Holds, Judged, OneSatisfied, SomeSatisfied, AllSatisfied, WellFormed,
         NoReals,
         Sized, Verdicts, FirstBroken;
    var valids := Verdicts(Compile(k).subs, v);
    SubsParts(k);
    SubVerdicts(k, v);
    JudgedAll(k.allOf, 0, valids, v);
    JudgedAny(k.anyOf, |k.allOf|, valids, v);
    JudgedOne(k.oneOf, |k.allOf| + |k.anyOf|, valids, v);
    BrokenFour(k, AllOfKeyword, AnyOfKeyword, OneOfKeyword, NotKeyword, v);
  }

  // ---- The whole value ----

  /** The fault of a value at `path`: what its beginning breaks, else the first fault inside, else what its end
      breaks. */
  function Blamed(k: Keywords, v: JSON, path: Text): Option<Fault>
    decreases v, 4
  {
    Or(AtPath(FirstBroken(k, AT_BEGIN, v), path), Or(BlamedInside(k, v, path), AtPath(FirstBroken(k, AT_END, v), path)))
  }

  function BlamedInside(k: Keywords, v: JSON, path: Text): Option<Fault>
    decreases v, 3
  {
    match v
    case Array(vs) => Or(BlamedElements(k, 0, vs, path), AtPath(FirstBroken(k, AT_END_ARRAY, v), path))
    case Object(ms) => Or(BlamedMembers(k, ms, path), AtPath(FirstBroken(k, AT_END_OBJECT, v), path))
    case _ => None
  }

  function BlamedElements(k: Keywords, index: nat, vs: seq<JSON>, path: Text): Option<Fault>
    decreases vs, 3
  {
    if vs == [] then None
    else Or(BlamedElement(k, index, vs[0], path + IndexToken(index)), BlamedElements(k, index + 1, vs[1..], path))
  }

  function BlamedMembers(k: Keywords, ms: seq<Member>, path: Text): Option<Fault>
    decreases ms, 3
  {
    if ms == [] then None
    else
      Or(BlamedMember(k, ms[0].name, ms[0].value, path + NameToken(ms[0].name)), BlamedMembers(k, ms[1..], path))
  }

  /** The fault of element `index` of an array under the schema. */
  function BlamedElement(k: Keywords, index: nat, v: JSON, path: Text): Option<Fault>
    decreases v, 6
  {
    match k.items
    case AnyItems => None
    case EachItem(t) => Blamed(t, v, path)
    case Tuple(ts) =>
      if ts == [] then None
      else if index < |ts| then Blamed(ts[index], v, path)
      else BlamedAdditional(k.additionalItems, ItemsKeyword, v, path)
  }

  /** The fault of the member of that name of an object under the schema. */
  function BlamedMember(k: Keywords, name: Text, v: JSON, path: Text): Option<Fault>
    decreases v, 6
  {
    var i := FindDeclared(k.properties, name);
    if i < |k.properties| then Blamed(k.properties[i].schema, v, path)
    else if Mentioned(k, name) then None
    else BlamedAdditional(k.additionalProperties, AdditionalPropertiesKeyword, v, path)
  }

  function BlamedAdditional(a: Additional, word: Keyword, v: JSON, path: Text): Option<Fault>
    decreases v, 5
  {
    match a
    case Allowed => None
    case Forbidden => Some(Fault(word, path))
    case Must(t) => Blamed(t, v, path)
  }

  // ---- The faults of the compiled schema ----

  lemma TypelessFault(v: JSON, path: Text)
    requires Sized(v)
    ensures FaultOf(TYPELESS, v, path).None?
  {
    hide FaultOf, Accepts, Sized;
    TypelessAccepts(v);
    FaultIsRefusal(TYPELESS, v, path);
  }

  lemma {:induction false} FaultIsBlamed(k: Keywords, v: JSON, path: Text)
    requires WellFormed(k) && NoReals(v) && Sized(v)
    ensures FaultOf(Compile(k), v, path) == Blamed(k, v, path)
    decreases v, 4
  {
    hide CheckValue, CheckEndValue, CheckEndArray, CheckEndObject, Verdicts, Events, Compile, WellFormed, FirstBroken,
         ExistAfter, NoneExist, ElementsFault, MembersFault, BlamedElements, BlamedMembers;
    Positive(k);
    BeginBlames(k, v);
    EndValueBlames(k, v);
    match v
    case Array(vs) =>
      EndArrayBlames(k, v);
      ElementsFaultIsBlamed(k, 0, vs, path);
    case Object(ms) =>
      EndObjectBlames(k, v);
      MembersFaultIsBlamed(k, ms, path);
    case _ =>
  }

  lemma {:induction false} ElementsFaultIsBlamed(k: Keywords, index: nat, vs: seq<JSON>, path: Text)
    requires WellFormed(k) && NoRealElements(vs) && AllSized(vs)
    ensures ElementsFault(Compile(k), index, vs, path) == BlamedElements(k, index, vs, path)
    decreases vs, 3
  {
    hide WellFormed, Compile, NoReals, Sized, FaultOf, BlamedElement, ElementSchema, IndexToken;
    if vs != [] {
      ElementFaultIsBlamed(k, index, vs[0], path + IndexToken(index));
      ElementsFaultIsBlamed(k, index + 1, vs[1..], path);
    }
  }

  lemma {:induction false} MembersFaultIsBlamed(k: Keywords, ms: seq<Member>, path: Text)
    requires WellFormed(k) && NoRealMembers(ms) && AllMembersSized(ms)
    ensures MembersFault(Compile(k), ms, path) == BlamedMembers(k, ms, path)
    decreases ms, 3
  {
    hide WellFormed, Compile, NoReals, Sized, FaultOf, BlamedMember, MemberSchema, NameToken;
    if ms != [] {
      MemberFaultIsBlamed(k, ms[0].name, ms[0].value, path + NameToken(ms[0].name));
      MembersFaultIsBlamed(k, ms[1..], path);
    }
  }

  lemma {:induction false} ElementFaultIsBlamed(k: Keywords, index: nat, v: JSON, path: Text)
    requires WellFormed(k) && NoReals(v) && Sized(v)
    ensures var s := ElementSchema(Compile(k), index);
            (if s.None? then Some(Fault(ItemsKeyword, path)) else FaultOf(s.value, v, path)) ==
            BlamedElement(k, index, v, path)
    decreases v, 5
  {
    hide Compile, NoReals, Sized, FaultOf, Blamed, ElementSchema;
    ElementParts(k, index);
    TypelessFault(v, path);
    match k.items
    case AnyItems =>
    case EachItem(t) => FaultIsBlamed(t, v, path);
    case Tuple(ts) =>
      if index < |ts| {
        FaultIsBlamed(ts[index], v, path);
      } else if k.additionalItems.Must? {
        FaultIsBlamed(k.additionalItems.schema, v, path);
      }
  }

  lemma {:induction false} MemberFaultIsBlamed(k: Keywords, name: Text, v: JSON, path: Text)
    requires WellFormed(k) && NoReals(v) && Sized(v)
    ensures var s := MemberSchema(Compile(k), name);
            (if s.None? then Some(Fault(AdditionalPropertiesKeyword, path)) else FaultOf(s.value, v, path)) ==
            BlamedMember(k, name, v, path)
    decreases v, 5
  {
    hide Compile, NoReals, Sized, FaultOf, Blamed, MemberSchema, FindDeclared, Mentioned;
    MemberParts(k, name);
    TypelessFault(v, path);
    var i := FindDeclared(k.properties, name);
    if i < |k.properties| {
      FaultIsBlamed(k.properties[i].schema, v, path);
    } else if k.additionalProperties.Must? {
      FaultIsBlamed(k.additionalProperties.schema, v, path);
    }
  }

  // ---- What the validator reports ----

  /** Nothing is blamed exactly if the value meets the document. */
  lemma NothingBlamed(k: Keywords, v: JSON, path: Text)
    requires WellFormed(k) && NoReals(v) && Sized(v)
    ensures Blamed(k, v, path).None? <==> Satisfies(RapidJson, k, v)
  {
    hide Blamed, Satisfies, FaultOf, Compile, WellFormed, NoReals, Sized, Accepts;
    FaultIsBlamed(k, v, path);
    FaultIsRefusal(Compile(k), v, path);
    CompiledAccepts(k, v);
  }

  /** After the events of a value, numbers reported by whatever kind, the validator reports the keyword and the path of
      the first fault of the value under the document, and none exactly if the value meets the document. */
  lemma ReportedIsBlamed(k: Keywords, v: JSON, es: seq<Event>)
    requires WellFormed(k) && NoReals(v) && Sized(v) && CanonicalAll(es) == Events(v)
    ensures Reported(Run(Fresh(Compile(k)), es)) == Blamed(k, v, [])
    ensures Reported(Run(Fresh(Compile(k)), es)).None? <==> Satisfies(RapidJson, k, v)
  {
    hide Run, Compile, Blamed, Satisfies, WellFormed, NoReals, Sized, Accepts, Events, CanonicalAll, FaultOf, Reported;
    SchemaTheorems.RunCanonical(Fresh(Compile(k)), es);
    FaultRun(Fresh(Compile(k)), Compile(k), v);
    FaultIsBlamed(k, v, []);
    NothingBlamed(k, v, []);
  }
}
