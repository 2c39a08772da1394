/** Schemas as documents: the keywords of JSON Schema draft 4, what they demand of a value, and their compilation. */
module SchemaDocument {
  import opened Bytes
  import opened Json
  import opened Schemas

  /** additionalProperties and additionalItems. */
  datatype Additional = Allowed | Forbidden | Must(schema: Keywords)

  datatype Items = AnyItems | EachItem(schema: Keywords) | Tuple(schemas: seq<Keywords>)

  datatype Declared = Declared(name: Text, schema: Keywords)

  datatype Dependency = OnNames(name: Text, targets: seq<Text>) | OnSchema(name: Text, schema: Keywords)

  /** A schema object. An absent allOf, anyOf, oneOf, properties, required or dependencies is an empty one. */
  datatype Keywords = Keywords(
    types: Option<seq<ValueKind>>,
    allOf: seq<Keywords>,
    anyOf: seq<Keywords>,
    oneOf: seq<Keywords>,
    negated: Option<Keywords>,
    properties: seq<Declared>,
    required: seq<Text>,
    dependencies: seq<Dependency>,
    additionalProperties: Additional,
    minProperties: Option<nat>,
    maxProperties: Option<nat>,
    items: Items,
    additionalItems: Additional,
    minItems: Option<nat>,
    maxItems: Option<nat>,
    minimum: Option<Int64>,
    maximum: Option<Int64>,
    exclusiveMinimum: bool,
    exclusiveMaximum: bool,
    multipleOf: Option<Int64>)

  /** Names of JSON object members are distinct, and multipleOf is positive. */
  predicate WellFormed(k: Keywords)
    decreases k, 1
  {
    && (forall i, j :: 0 <= i < j < |k.properties| ==> k.properties[i].name != k.properties[j].name)
    && (forall i, j :: 0 <= i < j < |k.dependencies| ==> k.dependencies[i].name != k.dependencies[j].name)
    && (k.multipleOf.Some? ==> k.multipleOf.value > 0)
    && AllWellFormed(k.allOf) && AllWellFormed(k.anyOf) && AllWellFormed(k.oneOf)
    && (k.negated.Some? ==> WellFormed(k.negated.value))
    && (forall i :: 0 <= i < |k.properties| ==> WellFormed(k.properties[i].schema))
    && (forall i :: 0 <= i < |k.dependencies| && k.dependencies[i].OnSchema? ==> WellFormed(k.dependencies[i].schema))
    && AdditionalWellFormed(k.additionalProperties) && AdditionalWellFormed(k.additionalItems)
    && (k.items.EachItem? ==> WellFormed(k.items.schema))
    && (k.items.Tuple? ==> AllWellFormed(k.items.schemas))
  }

  predicate AllWellFormed(ks: seq<Keywords>)
    decreases ks, 0
  {
    forall i :: 0 <= i < |ks| ==> WellFormed(ks[i])
  }

  predicate AdditionalWellFormed(a: Additional)
    decreases a, 0
  {
    a.Must? ==> WellFormed(a.schema)
  }

  // ---- What a schema demands ----

  /** Draft4 is the specification; RapidJson differs from it in three places: names mentioned only in required or
      dependencies are declared too, an empty tuple is no tuple, and a count limit beyond 32 bits is no limit. */
  datatype Dialect = Draft4 | RapidJson

  predicate HasKind(v: JSON, kind: ValueKind) {
    match v
    case Null => kind.NullKind?
    case Bool(_) => kind.BooleanKind?
    case Number(_) => kind.IntegerKind? || kind.NumberKind?
    case Real(_) => kind.NumberKind?
    case String(_) => kind.StringKind?
    case Array(_) => kind.ArrayKind?
    case Object(_) => kind.ObjectKind?
  }

  predicate KindSatisfied(k: Keywords, v: JSON) {
    k.types.None? || exists i :: 0 <= i < |k.types.value| && HasKind(v, k.types.value[i])
  }

  predicate MinimumMet(k: Keywords, n: int) {
    k.minimum.Some? ==> if k.exclusiveMinimum then k.minimum.value < n else k.minimum.value <= n
  }

  predicate MaximumMet(k: Keywords, n: int) {
    k.maximum.Some? ==> if k.exclusiveMaximum then n < k.maximum.value else n <= k.maximum.value
  }

  predicate MultipleMet(k: Keywords, n: int) {
    k.multipleOf.Some? && k.multipleOf.value > 0 ==> n % k.multipleOf.value == 0
  }

  predicate NumberSatisfied(k: Keywords, n: int) {
    MinimumMet(k, n) && MaximumMet(k, n) && MultipleMet(k, n)
  }

  predicate AtLeast(d: Dialect, n: nat, limit: Option<nat>) {
    limit.Some? ==> limit.value <= n || (d.RapidJson? && limit.value > UINT_MAX)
  }

  predicate AtMost(n: nat, limit: Option<nat>) {
    limit.Some? ==> n <= limit.value
  }

  predicate Occurs(name: Text, ms: seq<Member>) {
    exists i :: 0 <= i < |ms| && ms[i].name == name
  }

  predicate AllOccur(names: seq<Text>, ms: seq<Member>) {
    forall i :: 0 <= i < |names| ==> Occurs(names[i], ms)
  }

  function FindDeclared(ps: seq<Declared>, name: Text): (i: nat)
    ensures i <= |ps|
    ensures i < |ps| ==> ps[i].name == name
    ensures forall j :: 0 <= j < i ==> ps[j].name != name
  {
    if ps == [] || ps[0].name == name then 0 else FindDeclared(ps[1..], name) + 1
  }

  /** The value meets every keyword of the schema. */
  predicate Satisfies(d: Dialect, k: Keywords, v: JSON)
    decreases v, k, 3
  {
    && KindSatisfied(k, v)
    && (v.Number? ==> NumberSatisfied(k, v.n))
    && (v.Array? ==>
         AtLeast(d, |v.elements|, k.minItems) && AtMost(|v.elements|, k.maxItems) &&
         ElementsSatisfied(d, k, 0, v.elements))
    && (v.Object? ==> AtLeast(d, |v.members|, k.minProperties) && AtMost(|v.members|, k.maxProperties) &&
                      AllOccur(k.required, v.members) && MembersSatisfied(d, k, v.members) &&
                          DependenciesSatisfied(d, k, v))
    && AllSatisfied(d, k.allOf, v)
    && (k.anyOf != [] ==> SomeSatisfied(d, k.anyOf, v))
    && (k.oneOf != [] ==> OneSatisfied(d, k.oneOf, v))
    && (k.negated.Some? ==> !Satisfies(d, k.negated.value, v))
  }

  predicate AllSatisfied(d: Dialect, ks: seq<Keywords>, v: JSON)
    decreases v, ks, 2
  {
    forall i :: 0 <= i < |ks| ==> Satisfies(d, ks[i], v)
  }

  predicate SomeSatisfied(d: Dialect, ks: seq<Keywords>, v: JSON)
    decreases v, ks, 2
  {
    exists i :: 0 <= i < |ks| && Satisfies(d, ks[i], v)
  }

  /** Exactly one. */
  predicate OneSatisfied(d: Dialect, ks: seq<Keywords>, v: JSON)
    decreases v, ks, 2
  {
    exists i :: 0 <= i < |ks| && Satisfies(d, ks[i], v) && forall j :: 0 <= j < |ks| && j != i ==>
        !Satisfies(d, ks[j], v)
  }

  predicate DependenciesSatisfied(d: Dialect, k: Keywords, v: JSON)
    requires v.Object?
    decreases v, k, 2
  {
    forall i :: 0 <= i < |k.dependencies| && Occurs(k.dependencies[i].name, v.members) ==>
        DependencySatisfied(d, k.dependencies[i], v)
  }

  predicate DependencySatisfied(d: Dialect, p: Dependency, v: JSON)
    requires v.Object?
    decreases v, p, 2
  {
    match p
    case OnNames(_, targets) => AllOccur(targets, v.members)
    case OnSchema(_, s) => Satisfies(d, s, v)
  }

  predicate AdditionalSatisfied(d: Dialect, a: Additional, v: JSON)
    decreases v, a, 4
  {
    match a
    case Allowed => true
    case Forbidden => false
    case Must(s) => Satisfies(d, s, v)
  }

  predicate ElementSatisfied(d: Dialect, k: Keywords, index: nat, v: JSON)
    decreases v, k, 5
  {
    match k.items
    case AnyItems => true
    case EachItem(s) => Satisfies(d, s, v)
    case Tuple(ss) =>
      if d.RapidJson? && ss == [] then true
      else if index < |ss| then Satisfies(d, ss[index], v)
      else AdditionalSatisfied(d, k.additionalItems, v)
  }

  predicate ElementsSatisfied(d: Dialect, k: Keywords, index: nat, vs: seq<JSON>)
    decreases vs
  {
    vs == [] || (ElementSatisfied(d, k, index, vs[0]) && ElementsSatisfied(d, k, index + 1, vs[1..]))
  }

  /** Names that required or dependencies speak of. */
  predicate Mentioned(k: Keywords, name: Text) {
    name in k.required ||
    exists i :: 0 <= i < |k.dependencies| &&
                (k.dependencies[i].name == name || (k.dependencies[i].OnNames? && name in k.dependencies[i].targets))
  }

  predicate MemberSatisfied(d: Dialect, k: Keywords, name: Text, v: JSON)
    decreases v, k, 5
  {
    var i := FindDeclared(k.properties, name);
    if i < |k.properties| then Satisfies(d, k.properties[i].schema, v)
    else if d.RapidJson? && Mentioned(k, name) then true
    else AdditionalSatisfied(d, k.additionalProperties, v)
  }

  predicate MembersSatisfied(d: Dialect, k: Keywords, ms: seq<Member>)
    decreases ms
  {
    ms == [] || (MemberSatisfied(d, k, ms[0].name, ms[0].value) && MembersSatisfied(d, k, ms[1..]))
  }

  // ---- Compilation: the constructor of Schema ----

  /** AddType: "number" admits integers too. */
  function KindMask(kinds: seq<ValueKind>): set<ValueKind> {
    if kinds == [] then {}
    else (if kinds[0].NumberKind? then {NumberKind, IntegerKind} else {kinds[0]}) + KindMask(kinds[1..])
  }

  /** AddUniqueElement. */
  function AddUnique(names: seq<Text>, name: Text): seq<Text> {
    if name in names then names else names + [name]
  }

  function AddNames(names: seq<Text>, more: seq<Text>): seq<Text>
    decreases |more|
  {
    if more == [] then names else AddNames(AddUnique(names, more[0]), more[1..])
  }

  function AddDeclared(names: seq<Text>, ps: seq<Declared>): seq<Text>
    decreases |ps|
  {
    if ps == [] then names else AddDeclared(AddUnique(names, ps[0].name), ps[1..])
  }

  function AddDependencies(names: seq<Text>, ds: seq<Dependency>): seq<Text>
    decreases |ds|
  {
    if ds == [] then names
    else
      var source := AddUnique(names, ds[0].name);
      AddDependencies(if ds[0].OnNames? then AddNames(source, ds[0].targets) else source, ds[1..])
  }

  /** allProperties: the names of the property table. */
  function TableNames(k: Keywords): seq<Text> {
    AddDependencies(AddNames(AddDeclared([], k.properties), k.required), k.dependencies)
  }

  function FindDependency(ds: seq<Dependency>, name: Text): (i: nat)
    ensures i <= |ds|
    ensures i < |ds| ==> ds[i].name == name
    ensures forall j :: 0 <= j < i ==> ds[j].name != name
  {
    if ds == [] || ds[0].name == name then 0 else FindDependency(ds[1..], name) + 1
  }

  /** How many dependencies on schemas there are; each takes one parallel validator. */
  function CountSchemas(ds: seq<Dependency>): nat {
    if ds == [] then 0 else (if ds[0].OnSchema? then 1 else 0) + CountSchemas(ds[1..])
  }

  /** The index of the first parallel validator of a dependency. */
  function DependencyBase(k: Keywords): nat {
    |k.allOf| + |k.anyOf| + |k.oneOf| + if k.negated.Some? then 1 else 0
  }

  /** The row of `name`; `declared` are the compiled schemas of properties. */
  function Row(k: Keywords, declared: seq<Schema>, names: seq<Text>, name: Text): Property
    requires |declared| == |k.properties|
  {
    var i := FindDeclared(k.properties, name);
    var j := FindDependency(k.dependencies, name);
    var p := if j < |k.dependencies| then Some(k.dependencies[j]) else None;
    Property(
      name,
      if i < |k.properties| then declared[i] else TYPELESS,
      if p.Some? && p.value.OnSchema? then Some(DependencyBase(k) + CountSchemas(k.dependencies[..j])) else None,
      if p.Some? && p.value.OnNames? then Some(seq(|names|, n requires 0 <= n < |names| => names[n] in p.value.targets))
          else None,
      name in k.required)
  }

  /** A minimum or maximum count that is no 32-bit number is ignored. */
  function SizeOr(limit: Option<nat>, default: nat): nat {
    if limit.Some? && limit.value <= UINT_MAX then limit.value else default
  }

  function Compile(k: Keywords): Schema
    decreases k, 2
  {
    var names := TableNames(k);
    var declared := CompileDeclared(k.properties);
    Schema(
      if k.types.Some? then KindMask(k.types.value) else ALL_KINDS,
      CompileAll(k.allOf) + CompileAll(k.anyOf) + CompileAll(k.oneOf) + CompileNegated(k.negated) +
          CompileDependencies(k.dependencies),
      Range(0, |k.allOf|),
      Range(|k.allOf|, |k.anyOf|),
      Range(|k.allOf| + |k.anyOf|, |k.oneOf|),
      if k.negated.Some? then Some(|k.allOf| + |k.anyOf| + |k.oneOf|) else None,
      seq(|names|, i requires 0 <= i < |names| => Row(k, declared, names, names[i])),
      CompileAdditional(k.additionalProperties),
      !k.additionalProperties.Forbidden?,
      k.dependencies != [],
      k.required != [],
      SizeOr(k.minProperties, 0),
      SizeOr(k.maxProperties, UINT_MAX),
      if k.items.EachItem? then Some(Compile(k.items.schema)) else None,
      if k.items.Tuple? then CompileAll(k.items.schemas) else [],
      CompileAdditional(k.additionalItems),
      !k.additionalItems.Forbidden?,
      SizeOr(k.minItems, 0),
      SizeOr(k.maxItems, UINT_MAX),
      k.minimum,
      k.maximum,
      k.exclusiveMinimum,
      k.exclusiveMaximum,
      k.multipleOf)
  }

  function CompileAll(ks: seq<Keywords>): (r: seq<Schema>)
    ensures |r| == |ks|
    decreases ks, 1
  {
    if ks == [] then [] else [Compile(ks[0])] + CompileAll(ks[1..])
  }

  function CompileNegated(k: Option<Keywords>): (r: seq<Schema>)
    decreases k, 1
  {
    match k
    case None => []
    case Some(n) => [Compile(n)]
  }

  function CompileAdditional(a: Additional): Option<Schema>
    decreases a, 1
  {
    match a
    case Must(s) => Some(Compile(s))
    case _ => None
  }

  function CompileDeclared(ps: seq<Declared>): (r: seq<Schema>)
    ensures |r| == |ps|
    decreases ps, 1
  {
    if ps == [] then [] else [Compile(ps[0].schema)] + CompileDeclared(ps[1..])
  }

  function CompileDependencies(ds: seq<Dependency>): (r: seq<Schema>)
    ensures |r| == CountSchemas(ds)
    decreases ds, 1
  {
    if ds == [] then []
    else (if ds[0].OnSchema? then [Compile(ds[0].schema)] else []) + CompileDependencies(ds[1..])
  }
}
