/** Compiled schemas and the checks each of them makes on one event, schema.h's Schema class. */
module Schemas {
  import opened Bytes
  import opened Json

  /** The bits of type_. */
  datatype ValueKind = NullKind | BooleanKind | ObjectKind | ArrayKind | StringKind | NumberKind | IntegerKind

  const ALL_KINDS: set<ValueKind> := {NullKind, BooleanKind, ObjectKind, ArrayKind, StringKind, NumberKind, IntegerKind}

  /** The keyword a failing check reports. */
  datatype Keyword =
    | TypeKeyword | AllOfKeyword | AnyOfKeyword | OneOfKeyword | NotKeyword
    | RequiredKeyword | DependenciesKeyword | AdditionalPropertiesKeyword | MinPropertiesKeyword | MaxPropertiesKeyword
    | ItemsKeyword | MinItemsKeyword | MaxItemsKeyword | MinimumKeyword | MaximumKeyword | MultipleOfKeyword

  /** The indices begin, ..., begin + count - 1 of the parallel validators. */
  datatype Range = Range(begin: nat, count: nat)

  /** One row of the property table. */
  datatype Property = Property(name: Text, schema: Schema, dependenciesIndex: Option<nat>,
      dependencies: Option<seq<bool>>, required: bool)

  /** `subs` lists the schemas that parallel validators are created from, in the order of their indices. */
  datatype Schema = Schema(
    types: set<ValueKind>,
    subs: seq<Schema>,
    allOf: Range,
    anyOf: Range,
    oneOf: Range,
    negated: Option<nat>,
    properties: seq<Property>,
    additionalPropertiesSchema: Option<Schema>,
    additionalProperties: bool,
    hasDependencies: bool,
    hasRequired: bool,
    minProperties: nat,
    maxProperties: nat,
    itemsList: Option<Schema>,
    itemsTuple: seq<Schema>,
    additionalItemsSchema: Option<Schema>,
    additionalItems: bool,
    minItems: nat,
    maxItems: nat,
    minimum: Option<Int64>,
    maximum: Option<Int64>,
    exclusiveMinimum: bool,
    exclusiveMaximum: bool,
    multipleOf: Option<Int64>)

  const NO_RANGE: Range := Range(0, 0)

  /** GetTypeless: the schema of an object without keywords. */
  const TYPELESS: Schema := Schema(
    ALL_KINDS, [], NO_RANGE, NO_RANGE, NO_RANGE, None, [], None, true, false, false, 0, UINT_MAX, None, [], None, true,
        0, UINT_MAX,
    None, None, false, false, None)

  // ---- Numbers ----

  /** The minimum test of CheckInt, for a signed 64-bit argument. */
  predicate IntBelow(s: Schema, i: int) {
    s.minimum.Some? &&
    if s.minimum.value <= INT64_MAX then (if s.exclusiveMinimum then i <= s.minimum.value else i < s.minimum.value)
        else true
  }

  predicate IntAbove(s: Schema, i: int) {
    s.maximum.Some? && s.maximum.value <= INT64_MAX &&
        if s.exclusiveMaximum then i >= s.maximum.value else i > s.maximum.value
  }

  /** The minimum test of CheckUint, for an unsigned 64-bit argument. */
  predicate UintBelow(s: Schema, u: int) {
    s.minimum.Some? && s.minimum.value >= 0 && if s.exclusiveMinimum then u <= s.minimum.value else u < s.minimum.value
  }

  predicate UintAbove(s: Schema, u: int) {
    s.maximum.Some? &&
    if s.maximum.value >= 0 then (if s.exclusiveMaximum then u >= s.maximum.value else u > s.maximum.value) else true
  }

  predicate NotMultiple(s: Schema, n: int) {
    s.multipleOf.Some? && s.multipleOf.value > 0 && Magnitude(n) % s.multipleOf.value != 0
  }

  function CheckNumber(s: Schema, below: bool, above: bool, n: int): Option<Keyword> {
    if IntegerKind !in s.types && NumberKind !in s.types then Some(TypeKeyword)
    else if below then Some(MinimumKeyword)
    else if above then Some(MaximumKeyword)
    else if NotMultiple(s, n) then Some(MultipleOfKeyword)
    else None
  }

  function CheckInt(s: Schema, i: int): Option<Keyword> {
    CheckNumber(s, IntBelow(s, i), IntAbove(s, i), i)
  }

  function CheckUint(s: Schema, u: int): Option<Keyword> {
    CheckNumber(s, UintBelow(s, u), UintAbove(s, u), u)
  }

  /** The range checks are exact on the mathematical value, whichever event reports the number. */
  lemma NumberCheckExact(s: Schema, e: Event)
    requires (e.EInt? || e.EUint? || e.EInt64? || e.EUint64?) && InKind(e)
    ensures var n := IntegerOf(e);
            CheckValue(s, e) == CheckNumber(
              s,
              s.minimum.Some? && (if s.exclusiveMinimum then n <= s.minimum.value else n < s.minimum.value),
              s.maximum.Some? && (if s.exclusiveMaximum then n >= s.maximum.value else n > s.maximum.value),
              n)
  {
  }

  // ---- Checks on one event ----

  function CheckKind(s: Schema, kind: ValueKind): Option<Keyword> {
    if kind in s.types then None else Some(TypeKeyword)
  }

  /** What Null, Bool, Int, ..., String, StartObject and StartArray test. Of a double only the type is looked at
      here. */
  function CheckValue(s: Schema, e: Event): Option<Keyword> {
    match e
    case ENull => CheckKind(s, NullKind)
    case EBool(_) => CheckKind(s, BooleanKind)
    case EInt(n) => CheckInt(s, n)
    case EUint(n) => CheckUint(s, n)
    case EInt64(n) => CheckInt(s, n)
    case EUint64(n) => CheckUint(s, n)
    case EDouble(_) => CheckKind(s, NumberKind)
    case EString(_) => CheckKind(s, StringKind)
    case ERawNumber(_) => CheckKind(s, StringKind)
    case EStartObject => CheckKind(s, ObjectKind)
    case EStartArray => CheckKind(s, ArrayKind)
    case _ => None
  }

  /** BeginValue inside an array: the schema of element `index`, None where additional items are refused. */
  function ElementSchema(s: Schema, index: nat): Option<Schema> {
    if s.itemsList.Some? then s.itemsList
    else if s.itemsTuple == [] then Some(TYPELESS)
    else if index < |s.itemsTuple| then Some(s.itemsTuple[index])
    else if s.additionalItemsSchema.Some? then s.additionalItemsSchema
    else if s.additionalItems then Some(TYPELESS)
    else None
  }

  /** FindPropertyIndex: the first row of that name, |ps| if there is none. */
  function FindPropertyIndex(ps: seq<Property>, name: Text): (i: nat)
    ensures i <= |ps|
    ensures i < |ps| ==> ps[i].name == name
    ensures forall j :: 0 <= j < i ==> ps[j].name != name
  {
    if ps == [] || ps[0].name == name then 0 else FindPropertyIndex(ps[1..], name) + 1
  }

  /** Key: the schema of the member, None where additional properties are refused. */
  function MemberSchema(s: Schema, name: Text): Option<Schema> {
    var i := FindPropertyIndex(s.properties, name);
    if i < |s.properties| then Some(s.properties[i].schema)
    else if s.additionalPropertiesSchema.Some? then s.additionalPropertiesSchema
    else if s.additionalProperties then Some(TYPELESS)
    else None
  }

  /** propertyExist behind StartObject; [] where it is not allocated. */
  function NoneExist(s: Schema): seq<bool> {
    if s.hasDependencies || s.hasRequired then seq(|s.properties|, i => false) else []
  }

  /** propertyExist behind Key. */
  function MarkExist(s: Schema, exist: seq<bool>, name: Text): (r: seq<bool>)
    ensures |r| == |exist|
  {
    var i := FindPropertyIndex(s.properties, name);
    if i < |s.properties| && i < |exist| then exist[i := true] else exist
  }

  predicate Exists(exist: seq<bool>, i: nat) {
    i < |exist| && exist[i]
  }

  /** Parallel validator `i` exists and is valid. */
  predicate Holds(valids: seq<bool>, i: nat) {
    i < |valids| && valids[i]
  }

  predicate MissesRequired(s: Schema, exist: seq<bool>) {
    s.hasRequired && exists i :: 0 <= i < |s.properties| && s.properties[i].required && !Exists(exist, i)
  }

  /** A row that occurs asks for another that does not, or for a schema that does not hold. */
  predicate BreaksDependency(s: Schema, exist: seq<bool>, valids: seq<bool>, i: nat)
    requires i < |s.properties|
  {
    var p := s.properties[i];
    Exists(exist, i) &&
    if p.dependencies.Some? then
        exists j :: 0 <= j < |s.properties| && Exists(p.dependencies.value, j) && !Exists(exist, j)
    else p.dependenciesIndex.Some? && !Holds(valids, p.dependenciesIndex.value)
  }

  predicate MissesDependency(s: Schema, exist: seq<bool>, valids: seq<bool>) {
    s.hasDependencies && exists i :: 0 <= i < |s.properties| && BreaksDependency(s, exist, valids, i)
  }

  /** EndObject, given the members that occurred and the verdicts of the parallel validators. */
  function CheckEndObject(s: Schema, exist: seq<bool>, valids: seq<bool>, memberCount: nat): Option<Keyword> {
    if MissesRequired(s, exist) then Some(RequiredKeyword)
    else if memberCount < s.minProperties then Some(MinPropertiesKeyword)
    else if memberCount > s.maxProperties then Some(MaxPropertiesKeyword)
    else if MissesDependency(s, exist, valids) then Some(DependenciesKeyword)
    else None
  }

  function CheckEndArray(s: Schema, elementCount: nat): Option<Keyword> {
    if elementCount < s.minItems then Some(MinItemsKeyword)
    else if elementCount > s.maxItems then Some(MaxItemsKeyword)
    else None
  }

  /** How many validators of the range hold. */
  function CountHolding(r: Range, valids: seq<bool>): nat
    decreases r.count
  {
    if r.count == 0 then 0
    else (if Holds(valids, r.begin) then 1 else 0) + CountHolding(Range(r.begin + 1, r.count - 1), valids)
  }

  /** Schema::EndValue, given the verdicts of the parallel validators. */
  function CheckEndValue(s: Schema, valids: seq<bool>): Option<Keyword> {
    if CountHolding(s.allOf, valids) < s.allOf.count then Some(AllOfKeyword)
    else if s.anyOf.count > 0 && CountHolding(s.anyOf, valids) == 0 then Some(AnyOfKeyword)
    else if s.oneOf.count > 0 && CountHolding(s.oneOf, valids) != 1 then Some(OneOfKeyword)
    else if s.negated.Some? && Holds(valids, s.negated.value) then Some(NotKeyword)
    else None
  }

  // ---- The verdict on a whole value ----

  /** propertyExist when the members have passed. */
  function ExistAfter(s: Schema, exist: seq<bool>, ms: seq<Member>): (r: seq<bool>)
    ensures |r| == |exist|
    decreases |ms|
  {
    if ms == [] then exist else ExistAfter(s, MarkExist(s, exist, ms[0].name), ms[1..])
  }

  /** The value passes every check of the schema, each sub-schema judged on its own. */
  predicate Accepts(s: Schema, v: JSON)
    decreases v, s, 2
  {
    CheckValue(s, Events(v)[0]).None? &&
    (v.Array? ==> ElementsAccepted(s, 0, v.elements) && CheckEndArray(s, |v.elements|).None?) &&
    (v.Object? ==> MembersAccepted(s, v.members) &&
                   CheckEndObject(s, ExistAfter(s, NoneExist(s), v.members), Verdicts(s.subs, v), |v.members|).None?) &&
    CheckEndValue(s, Verdicts(s.subs, v)).None?
  }

  /** The verdicts of the parallel schemas on the same value. */
  function Verdicts(ss: seq<Schema>, v: JSON): (r: seq<bool>)
    ensures |r| == |ss|
    decreases v, ss, 1
  {
    seq(|ss|, i requires 0 <= i < |ss| => Accepts(ss[i], v))
  }

  predicate ElementsAccepted(s: Schema, index: nat, vs: seq<JSON>)
    decreases vs
  {
    vs == [] ||
    (ElementSchema(s, index).Some? && Accepts(ElementSchema(s, index).value, vs[0]) &&
        ElementsAccepted(s, index + 1, vs[1..]))
  }

  predicate MembersAccepted(s: Schema, ms: seq<Member>)
    decreases ms
  {
    ms == [] ||
    (MemberSchema(s, ms[0].name).Some? && Accepts(MemberSchema(s, ms[0].name).value, ms[0].value) &&
        MembersAccepted(s, ms[1..]))
  }

  // ---- Nesting ----

  /** How deeply schemas are nested. */
  function Height(s: Schema): nat
    decreases s, 1
  {
    1 + Max(Max(Heights(s.subs), PropertyHeights(s.properties)),
            Max(Max(OptionHeight(s.additionalPropertiesSchema), OptionHeight(s.itemsList)),
                Max(Heights(s.itemsTuple), OptionHeight(s.additionalItemsSchema))))
  }

  function OptionHeight(s: Option<Schema>): nat
    decreases s, 0
  {
    match s
    case None => 0
    case Some(t) => Height(t)
  }

  function Heights(ss: seq<Schema>): (h: nat)
    ensures forall i :: 0 <= i < |ss| ==> Height(ss[i]) <= h
    decreases ss, 0
  {
    if ss == [] then 0 else Max(Height(ss[0]), Heights(ss[1..]))
  }

  function PropertyHeights(ps: seq<Property>): (h: nat)
    ensures forall i :: 0 <= i < |ps| ==> Height(ps[i].schema) <= h
    decreases ps, 0
  {
    if ps == [] then 0 else Max(Height(ps[0].schema), PropertyHeights(ps[1..]))
  }
}
