/** A compiled schema accepts exactly the values that meet the keywords of its document. */
module SchemaMeaning {
  import opened Bytes
  import opened Json
  import opened Schemas
  import opened SchemaDocument

  /** Member and element counts are SizeType, 32 bits wide. */
  predicate Sized(v: JSON)
    decreases v, 1
  {
    match v
    case Array(vs) => |vs| <= UINT_MAX && AllSized(vs)
    case Object(ms) => |ms| <= UINT_MAX && AllMembersSized(ms)
    case _ => true
  }

  predicate AllSized(vs: seq<JSON>)
    decreases vs, 0
  {
    vs == [] || (Sized(vs[0]) && AllSized(vs[1..]))
  }

  predicate AllMembersSized(ms: seq<Member>)
    decreases ms, 0
  {
    ms == [] || (Sized(ms[0].value) && AllMembersSized(ms[1..]))
  }

  // ---- Lists of compiled schemas ----

  lemma {:induction false} CompileAllAt(ks: seq<Keywords>, i: nat)
    requires i < |ks|
    ensures CompileAll(ks)[i] == Compile(ks[i])
    decreases i
  {
    hide Compile;
    if i > 0 {
      CompileAllAt(ks[1..], i - 1);
    }
  }

  lemma {:induction false} CompileDeclaredAt(ps: seq<Declared>, i: nat)
    requires i < |ps|
    ensures CompileDeclared(ps)[i] == Compile(ps[i].schema)
    decreases i
  {
    hide Compile;
    if i > 0 {
      CompileDeclaredAt(ps[1..], i - 1);
    }
  }

  // ---- The property table ----

  lemma {:induction false} AddNamesHas(names: seq<Text>, more: seq<Text>, name: Text)
    ensures name in AddNames(names, more) <==> name in names || name in more
    decreases |more|
  {
    if more != [] {
      AddNamesHas(AddUnique(names, more[0]), more[1..], name);
      assert name in more <==> name == more[0] || name in more[1..];
    }
  }

  lemma {:induction false} AddDeclaredHas(names: seq<Text>, ps: seq<Declared>, name: Text)
    ensures name in AddDeclared(names, ps) <==> name in names || FindDeclared(ps, name) < |ps|
    decreases |ps|
  {
    if ps != [] {
      AddDeclaredHas(AddUnique(names, ps[0].name), ps[1..], name);
    }
  }

  predicate Depends(ds: seq<Dependency>, name: Text) {
    exists i :: 0 <= i < |ds| && (ds[i].name == name || (ds[i].OnNames? && name in ds[i].targets))
  }

  lemma {:induction false} AddDependenciesHas(names: seq<Text>, ds: seq<Dependency>, name: Text)
    ensures name in AddDependencies(names, ds) <==> name in names || Depends(ds, name)
    decreases |ds|
  {
    if ds != [] {
      var source := AddUnique(names, ds[0].name);
      var d := ds[0];
      if d.OnNames? {
        AddNamesHas(source, d.targets, name);
      }
      AddDependenciesHas(if d.OnNames? then AddNames(source, d.targets) else source, ds[1..], name);
      DependsCons(ds, name);
    }
  }

  lemma DependsCons(ds: seq<Dependency>, name: Text)
    requires ds != []
    ensures Depends(ds, name) <==>
              ds[0].name == name || (ds[0].OnNames? && name in ds[0].targets) || Depends(ds[1..], name)
  {
    assert forall i :: 0 <= i < |ds| - 1 ==> ds[1..][i] == ds[i + 1];
    assert forall i :: 1 <= i < |ds| ==> ds[i] == ds[1..][i - 1];
  }

  /** The table has a row for exactly the declared and the mentioned names. */
  lemma TableHas(k: Keywords, name: Text)
    ensures name in TableNames(k) <==> FindDeclared(k.properties, name) < |k.properties| || Mentioned(k, name)
  {
    hide AddNames, AddDeclared, AddDependencies, FindDeclared;
    var declared := AddDeclared([], k.properties);
    AddDeclaredHas([], k.properties, name);
    AddNamesHas(declared, k.required, name);
    AddDependenciesHas(AddNames(declared, k.required), k.dependencies, name);
  }

  /** The rows of a compiled schema. */
  lemma TableRow(k: Keywords, i: nat)
    requires i < |TableNames(k)|
    ensures |Compile(k).properties| == |TableNames(k)|
    ensures Compile(k).properties[i] == Row(k, CompileDeclared(k.properties), TableNames(k), TableNames(k)[i])
  {
    hide Row, TableNames, KindMask, CompileDeclared, CompileAll, CompileDependencies, SizeOr;
  }

  lemma TableFind(k: Keywords, name: Text)
    ensures |Compile(k).properties| == |TableNames(k)|
    ensures var i := FindPropertyIndex(Compile(k).properties, name);
            (i < |TableNames(k)| <==> name in TableNames(k)) && (i < |TableNames(k)| ==> TableNames(k)[i] == name)
  {
    hide Row, TableNames, Compile, FindPropertyIndex;
    var ps, names := Compile(k).properties, TableNames(k);
    TableSize(k);
    forall j | 0 <= j < |names| ensures ps[j].name == names[j] {
      TableRow(k, j);
      RowName(k, names, names[j]);
    }
    if name in names {
      var j :| 0 <= j < |names| && names[j] == name;
      assert ps[j].name == name;
    }
  }

  lemma TableSize(k: Keywords)
    ensures |Compile(k).properties| == |TableNames(k)|
  {
    hide Row, TableNames, KindMask, CompileDeclared, CompileAll, CompileDependencies, SizeOr;
  }

  lemma RowName(k: Keywords, names: seq<Text>, name: Text)
    ensures Row(k, CompileDeclared(k.properties), names, name).name == name
  {
    hide Compile, CompileDeclared, FindDeclared, FindDependency;
  }

  // ---- The typeless schema ----

  lemma TypelessParts(i: nat, name: Text)
    ensures ElementSchema(TYPELESS, i) == Some(TYPELESS) && MemberSchema(TYPELESS, name) == Some(TYPELESS)
  {
  }

  lemma TypelessChecks(e: Event, n: nat, exist: seq<bool>, valids: seq<bool>)
    ensures CheckValue(TYPELESS, e).None? && CheckEndValue(TYPELESS, valids).None?
    ensures n <= UINT_MAX ==> CheckEndArray(TYPELESS, n).None? && CheckEndObject(TYPELESS, exist, valids, n).None?
  {
  }

  /** A schema without keywords accepts everything. */
  lemma {:induction false} TypelessAccepts(v: JSON)
    requires Sized(v)
    ensures Accepts(TYPELESS, v)
    decreases v, 1
  {
    hide ElementsAccepted, MembersAccepted, Events, AllSized, AllMembersSized, CheckValue, CheckEndValue, CheckEndArray,
         CheckEndObject, Verdicts,
         ExistAfter, NoneExist;
    var valids := Verdicts(TYPELESS.subs, v);
    TypelessChecks(Events(v)[0], 0, [], valids);
    match v
    case Array(vs) =>
      TypelessElements(0, vs);
      TypelessChecks(EStartArray, |vs|, [], valids);
    case Object(ms) =>
      TypelessMembers(ms);
      TypelessChecks(EStartObject, |ms|, ExistAfter(TYPELESS, NoneExist(TYPELESS), ms), valids);
    case _ =>
  }

  lemma {:induction false} TypelessElements(i: nat, vs: seq<JSON>)
    requires AllSized(vs)
    ensures ElementsAccepted(TYPELESS, i, vs)
    decreases vs, 0
  {
    hide Accepts, ElementSchema, Sized;
    if vs != [] {
      TypelessParts(i, []);
      TypelessAccepts(vs[0]);
      TypelessElements(i + 1, vs[1..]);
    }
  }

  lemma {:induction false} TypelessMembers(ms: seq<Member>)
    requires AllMembersSized(ms)
    ensures MembersAccepted(TYPELESS, ms)
    decreases ms, 0
  {
    hide Accepts, MemberSchema, Sized;
    if ms != [] {
      TypelessParts(0, ms[0].name);
      TypelessAccepts(ms[0].value);
      TypelessMembers(ms[1..]);
    }
  }

  // ---- Types and numbers ----

  lemma {:induction false} KindMaskHas(kinds: seq<ValueKind>, kind: ValueKind)
    ensures kind in KindMask(kinds) <==> kind in kinds || (kind.IntegerKind? && NumberKind in kinds)
  {
    if kinds != [] {
      KindMaskHas(kinds[1..], kind);
      assert kind in kinds <==> kind == kinds[0] || kind in kinds[1..];
      assert NumberKind in kinds <==> NumberKind == kinds[0] || NumberKind in kinds[1..];
    }
  }

  lemma MagnitudeMultiple(n: int, m: int)
    requires m > 0
    ensures Magnitude(n) % m == 0 <==> n % m == 0
  {
    if n < 0 {
      var q, r := n / m, n % m;
      assert n == q * m + r;
      if r == 0 {
        assert -n == (-q) * m + 0;
        DivisionUnique(-n, m, -q, 0);
      } else {
        assert -n == (-q - 1) * m + (m - r) by { assert (-q - 1) * m == -(q * m) - m; }
        DivisionUnique(-n, m, -q - 1, m - r);
      }
    }
  }

  lemma DivisionUnique(n: int, m: int, q: int, r: int)
    requires m > 0 && 0 <= r < m && n == q * m + r
    ensures n % m == r
  {
    var d := n / m - q;
    assert d * m == r - n % m by { assert d * m == n / m * m - q * m; }
    Scaled(d, m);
  }

  lemma Scaled(d: int, m: int)
    requires m > 0
    ensures d >= 1 ==> d * m >= m
    ensures d <= -1 ==> d * m <= -m
  {
  }

  /** What type_ admits. */
  lemma KindAdmitted(k: Keywords, kind: ValueKind)
    ensures kind in Compile(k).types <==>
            k.types.None? || kind in k.types.value || (kind.IntegerKind? && NumberKind in k.types.value)
  {
    hide TableNames, Row, CompileDeclared, CompileAll, CompileDependencies, SizeOr, KindMask;
    if k.types.Some? {
      KindMaskHas(k.types.value, kind);
    }
  }

  /** The first check of a compiled schema is the type and the number keywords. */
  lemma ValueChecked(k: Keywords, v: JSON)
    requires NoReals(v) && (k.multipleOf.Some? ==> k.multipleOf.value > 0)
    ensures CheckValue(Compile(k), Events(v)[0]).None? <==>
            KindSatisfied(k, v) && (v.Number? ==> NumberSatisfied(k, v.n))
  {
    hide Compile, ElementEvents, MemberEvents, NumberEvent, NumberSatisfied;
    match v
    case Null => OneKind(k, v, NullKind);
    case Bool(_) => OneKind(k, v, BooleanKind);
    case String(_) => OneKind(k, v, StringKind);
    case Array(_) => OneKind(k, v, ArrayKind);
    case Object(_) => OneKind(k, v, ObjectKind);
    case Number(n) =>
      KindAdmitted(k, IntegerKind);
      KindAdmitted(k, NumberKind);
      NumberChecked(k, n);
      NumberKinds(k, v);
  }

  lemma NumberKinds(k: Keywords, v: JSON)
    requires v.Number?
    ensures KindSatisfied(k, v) <==> k.types.None? || IntegerKind in k.types.value || NumberKind in k.types.value
  {
  }

  lemma OneKind(k: Keywords, v: JSON, kind: ValueKind)
    requires !v.Number? && !v.Real? && HasKind(v, kind)
    ensures KindSatisfied(k, v) <==> kind in Compile(k).types
  {
    hide Compile;
    KindAdmitted(k, kind);
    assert forall t :: HasKind(v, t) <==> t == kind;
    assert !kind.IntegerKind?;
  }

  lemma NumberChecked(k: Keywords, n: Int64)
    requires k.multipleOf.Some? ==> k.multipleOf.value > 0
    ensures var s := Compile(k);
            CheckValue(s, NumberEvent(n)).None? <==>
                (IntegerKind in s.types || NumberKind in s.types) && NumberSatisfied(k, n)
  {
    hide Compile, CheckValue, NumberEvent;
    NumberLimits(k);
    NumberInKind(n);
    NumberCheckExact(Compile(k), NumberEvent(n));
    if k.multipleOf.Some? {
      MagnitudeMultiple(n, k.multipleOf.value);
    }
  }

  lemma NumberLimits(k: Keywords)
    ensures var s := Compile(k);
            && s.minimum == k.minimum && s.maximum == k.maximum && s.multipleOf == k.multipleOf
            && s.exclusiveMinimum == k.exclusiveMinimum && s.exclusiveMaximum == k.exclusiveMaximum
  {
    hide TableNames, Row, CompileDeclared, CompileAll, CompileDependencies, SizeOr, KindMask;
  }

  lemma NumberInKind(n: Int64)
    ensures var e := NumberEvent(n);
            (e.EInt? || e.EUint? || e.EInt64? || e.EUint64?) && InKind(e) && IntegerOf(e) == n
  {
  }

  // ---- Elements and members ----

  /** Which schema an element is checked against. */
  lemma ElementParts(k: Keywords, index: nat)
    ensures var s, r := Compile(k), ElementSchema(Compile(k), index);
            match k.items
            case AnyItems => r == Some(TYPELESS)
            case EachItem(t) => r == Some(Compile(t))
            case Tuple(ss) =>
              if ss == [] then r == Some(TYPELESS)
              else if index < |ss| then r == Some(Compile(ss[index]))
              else
                match k.additionalItems
                case Allowed => r == Some(TYPELESS)
                case Forbidden => r == None
                case Must(t) => r == Some(Compile(t))
  {
    hide TableNames, Row, CompileDeclared, CompileAll, CompileDependencies, SizeOr, KindMask;
    if k.items.Tuple? && index < |k.items.schemas| {
      CompileAllAt(k.items.schemas, index);
    }
  }

  /** Which schema a member is checked against. */
  lemma MemberParts(k: Keywords, name: Text)
    ensures var r := MemberSchema(Compile(k), name);
            var i := FindDeclared(k.properties, name);
            if i < |k.properties| then r == Some(Compile(k.properties[i].schema))
            else if Mentioned(k, name) then r == Some(TYPELESS)
            else
              match k.additionalProperties
              case Allowed => r == Some(TYPELESS)
              case Forbidden => r == None
              case Must(t) => r == Some(Compile(t))
  {
    hide TableNames, Row, Compile, FindDeclared, FindPropertyIndex, Mentioned;
    TableFind(k, name);
    TableHas(k, name);
    var s, i := Compile(k), FindPropertyIndex(Compile(k).properties, name);
    if name in TableNames(k) {
      TableRow(k, i);
      RowSchema(k, TableNames(k), name);
    } else {
      AdditionalParts(k);
    }
  }

  lemma RowSchema(k: Keywords, names: seq<Text>, name: Text)
    ensures var i := FindDeclared(k.properties, name);
            Row(k, CompileDeclared(k.properties), names, name).schema == if i < |k.properties| then
                Compile(k.properties[i].schema) else TYPELESS
  {
    hide Compile, CompileDeclared, FindDeclared, FindDependency;
    var i := FindDeclared(k.properties, name);
    if i < |k.properties| {
      CompileDeclaredAt(k.properties, i);
    }
  }

  lemma AdditionalParts(k: Keywords)
    ensures var s := Compile(k);
            match k.additionalProperties
            case Allowed => s.additionalPropertiesSchema.None? && s.additionalProperties
            case Forbidden => s.additionalPropertiesSchema.None? && !s.additionalProperties
            case Must(t) => s.additionalPropertiesSchema == Some(Compile(t))
  {
    hide TableNames, Row, CompileDeclared, CompileAll, CompileDependencies, SizeOr, KindMask;
  }

  lemma {:induction false} ElementAgrees(k: Keywords, index: nat, v: JSON)
    requires WellFormed(k) && NoReals(v) && Sized(v)
    ensures var s := ElementSchema(Compile(k), index);
            (s.Some? && Accepts(s.value, v)) == ElementSatisfied(RapidJson, k, index, v)
    decreases v, k, 5
  {
    hide Accepts, Satisfies, Compile, NoReals, Sized, ElementSchema;
    ElementParts(k, index);
    TypelessAccepts(v);
    match k.items
    case AnyItems =>
    case EachItem(t) => CompiledAccepts(t, v);
    case Tuple(ss) =>
      if index < |ss| {
        CompiledAccepts(ss[index], v);
      } else if k.additionalItems.Must? {
        CompiledAccepts(k.additionalItems.schema, v);
      }
  }

  lemma {:induction false} ElementsAgree(k: Keywords, index: nat, vs: seq<JSON>)
    requires WellFormed(k) && NoRealElements(vs) && AllSized(vs)
    ensures ElementsAccepted(Compile(k), index, vs) == ElementsSatisfied(RapidJson, k, index, vs)
    decreases vs
  {
    hide Accepts, Compile, NoReals, Sized, ElementSchema, ElementSatisfied, WellFormed;
    if vs != [] {
      ElementAgrees(k, index, vs[0]);
      ElementsAgree(k, index + 1, vs[1..]);
    }
  }

  lemma {:induction false} MemberAgrees(k: Keywords, name: Text, v: JSON)
    requires WellFormed(k) && NoReals(v) && Sized(v)
    ensures var s := MemberSchema(Compile(k), name);
            (s.Some? && Accepts(s.value, v)) == MemberSatisfied(RapidJson, k, name, v)
    decreases v, k, 5
  {
    hide Accepts, Satisfies, Compile, NoReals, Sized, MemberSchema, FindDeclared, Mentioned;
    MemberParts(k, name);
    TypelessAccepts(v);
    var i := FindDeclared(k.properties, name);
    if i < |k.properties| {
      CompiledAccepts(k.properties[i].schema, v);
    } else if k.additionalProperties.Must? {
      CompiledAccepts(k.additionalProperties.schema, v);
    }
  }

  lemma {:induction false} MembersAgree(k: Keywords, ms: seq<Member>)
    requires WellFormed(k) && NoRealMembers(ms) && AllMembersSized(ms)
    ensures MembersAccepted(Compile(k), ms) == MembersSatisfied(RapidJson, k, ms)
    decreases ms
  {
    hide Accepts, Compile, NoReals, Sized, MemberSchema, MemberSatisfied, WellFormed;
    if ms != [] {
      MemberAgrees(k, ms[0].name, ms[0].value);
      MembersAgree(k, ms[1..]);
    }
  }

  // ---- Parallel validators ----

  /** The parts of the list that parallel validators are created from. */
  lemma SubsParts(k: Keywords)
    ensures var s := Compile(k);
            && s.subs == CompileAll(k.allOf) + CompileAll(k.anyOf) + CompileAll(k.oneOf) + CompileNegated(k.negated) +
               CompileDependencies(k.dependencies)
            && s.allOf == Range(0, |k.allOf|) && s.anyOf == Range(|k.allOf|, |k.anyOf|)
            && s.oneOf == Range(|k.allOf| + |k.anyOf|, |k.oneOf|)
            && s.negated == if k.negated.Some? then Some(|k.allOf| + |k.anyOf| + |k.oneOf|) else None
  {
    hide TableNames, Row, CompileDeclared, CompileAll, CompileDependencies, SizeOr, KindMask;
  }

  /** The schemas compiled from `ks` stand in `subs` from index `begin` on. */
  ghost predicate Placed(ks: seq<Keywords>, begin: nat, subs: seq<Schema>) {
    forall i :: 0 <= i < |ks| ==> begin + i < |subs| && subs[begin + i] == Compile(ks[i])
  }

  lemma PlacedBetween(ks: seq<Keywords>, before: seq<Schema>, behind: seq<Schema>)
    ensures Placed(ks, |before|, before + CompileAll(ks) + behind)
  {
    hide Compile, CompileAll;
    forall i | 0 <= i < |ks| ensures CompileAll(ks)[i] == Compile(ks[i]) {
      CompileAllAt(ks, i);
    }
  }

  lemma SubsPlaced(k: Keywords)
    ensures var subs := Compile(k).subs;
            Placed(k.allOf, 0, subs) && Placed(k.anyOf, |k.allOf|, subs) && Placed(k.oneOf, |k.allOf| + |k.anyOf|, subs)
  {
    hide Compile, CompileAll, CompileDependencies, CompileNegated, Placed;
    SubsParts(k);
    var a, b, c, d, e := CompileAll(k.allOf), CompileAll(k.anyOf), CompileAll(k.oneOf), CompileNegated(k.negated),
        CompileDependencies(k.dependencies);
    PlacedBetween(k.allOf, [], b + c + d + e);
    assert [] + a + (b + c + d + e) == a + b + c + d + e;
    PlacedBetween(k.anyOf, a, c + d + e);
    assert a + b + (c + d + e) == a + b + c + d + e;
    PlacedBetween(k.oneOf, a + b, d + e);
    Assoc(a + b + c, d, e);
  }

  lemma SubNegated(k: Keywords)
    requires k.negated.Some?
    ensures var i := |k.allOf| + |k.anyOf| + |k.oneOf|;
            i < |Compile(k).subs| && Compile(k).subs[i] == Compile(k.negated.value)
  {
    hide Compile, CompileDependencies;
    SubsParts(k);
  }

  lemma {:induction false} DependencyAt(ds: seq<Dependency>, j: nat)
    requires j < |ds| && ds[j].OnSchema?
    ensures var i := CountSchemas(ds[..j]);
            i < CountSchemas(ds) && CompileDependencies(ds)[i] == Compile(ds[j].schema)
    decreases j
  {
    hide Compile;
    if j > 0 {
      DependencyAt(ds[1..], j - 1);
      assert ds[..j][1..] == ds[1..][..j - 1];
    }
  }

  lemma SubDependency(k: Keywords, j: nat)
    requires j < |k.dependencies| && k.dependencies[j].OnSchema?
    ensures var i := DependencyBase(k) + CountSchemas(k.dependencies[..j]);
            i < |Compile(k).subs| && Compile(k).subs[i] == Compile(k.dependencies[j].schema)
  {
    hide Compile, CompileAll, CompileDependencies, CountSchemas;
    SubsParts(k);
    DependencyAt(k.dependencies, j);
  }

  predicate Covers(r: Range, i: int) {
    r.begin <= i < r.begin + r.count
  }

  lemma {:induction false} CountMeaning(r: Range, valids: seq<bool>)
    ensures CountHolding(r, valids) <= r.count
    ensures CountHolding(r, valids) == r.count <==> forall i: nat :: Covers(r, i) ==> Holds(valids, i)
    ensures CountHolding(r, valids) == 0 <==> forall i: nat :: Covers(r, i) ==> !Holds(valids, i)
    decreases r.count
  {
    if r.count > 0 {
      var t := Range(r.begin + 1, r.count - 1);
      CountMeaning(t, valids);
      assert forall i: nat :: Covers(r, i) <==> i == r.begin || Covers(t, i);
      assert Covers(r, r.begin);
    }
  }

  ghost predicate OnlyOne(r: Range, valids: seq<bool>, i: nat) {
    Covers(r, i) && Holds(valids, i) && forall j: nat :: Covers(r, j) && j != i ==> !Holds(valids, j)
  }

  lemma {:induction false} CountOne(r: Range, valids: seq<bool>)
    ensures CountHolding(r, valids) == 1 <==> exists i: nat :: OnlyOne(r, valids, i)
    decreases r.count
  {
    if r.count > 0 {
      var t := Range(r.begin + 1, r.count - 1);
      CountOne(t, valids);
      CountMeaning(t, valids);
      assert forall i: nat :: Covers(r, i) <==> i == r.begin || Covers(t, i);
      if Holds(valids, r.begin) {
        assert CountHolding(t, valids) == 0 ==> OnlyOne(r, valids, r.begin);
      } else {
        assert forall i: nat :: OnlyOne(r, valids, i) <==> OnlyOne(t, valids, i);
      }
    }
  }

  /** The verdicts of the sub-schemas under one of allOf, anyOf and oneOf, found from index `begin` on. */
  ghost predicate Judged(ks: seq<Keywords>, begin: nat, valids: seq<bool>, v: JSON) {
    forall i :: 0 <= i < |ks| ==> Holds(valids, begin + i) == Satisfies(RapidJson, ks[i], v)
  }

  lemma JudgedAll(ks: seq<Keywords>, begin: nat, valids: seq<bool>, v: JSON)
    requires Judged(ks, begin, valids, v)
    ensures var r := Range(begin, |ks|);
            CountHolding(r, valids) < r.count <==> !AllSatisfied(RapidJson, ks, v)
  {
    hide Satisfies, Holds, CountHolding;
    var r := Range(begin, |ks|);
    CountMeaning(r, valids);
    if AllSatisfied(RapidJson, ks, v) {
      forall i: nat | Covers(r, i) ensures Holds(valids, i) {
        assert Satisfies(RapidJson, ks[i - begin], v);
      }
    } else {
      var i :| 0 <= i < |ks| && !Satisfies(RapidJson, ks[i], v);
      assert Covers(r, begin + i) && !Holds(valids, begin + i);
    }
  }

  lemma JudgedAny(ks: seq<Keywords>, begin: nat, valids: seq<bool>, v: JSON)
    requires Judged(ks, begin, valids, v)
    ensures CountHolding(Range(begin, |ks|), valids) == 0 <==> !SomeSatisfied(RapidJson, ks, v)
  {
    hide Satisfies, Holds, CountHolding;
    var r := Range(begin, |ks|);
    CountMeaning(r, valids);
    if i :| 0 <= i < |ks| && Satisfies(RapidJson, ks[i], v) {
      assert Covers(r, begin + i) && Holds(valids, begin + i);
    } else {
      forall i: nat | Covers(r, i) ensures !Holds(valids, i) {
        assert !Satisfies(RapidJson, ks[i - begin], v);
      }
    }
  }

  /** `i` is the only one of the schemas that the value satisfies. */
  ghost predicate OnlySatisfied(ks: seq<Keywords>, v: JSON, i: int) {
    0 <= i < |ks| && Satisfies(RapidJson, ks[i], v) && forall j :: 0 <= j < |ks| && j != i ==>
        !Satisfies(RapidJson, ks[j], v)
  }

  lemma OneIsOnly(ks: seq<Keywords>, v: JSON)
    ensures OneSatisfied(RapidJson, ks, v) <==> exists i :: OnlySatisfied(ks, v, i)
  {
    hide Satisfies;
    if i :| OnlySatisfied(ks, v, i) {
      assert Satisfies(RapidJson, ks[i], v);
    }
    if OneSatisfied(RapidJson, ks, v) {
      var i :| 0 <= i < |ks| && Satisfies(RapidJson, ks[i], v) && forall j :: 0 <= j < |ks| && j != i ==>
          !Satisfies(RapidJson, ks[j], v);
      assert OnlySatisfied(ks, v, i);
    }
  }

  lemma OnlyJudged(ks: seq<Keywords>, begin: nat, valids: seq<bool>, v: JSON, i: nat)
    requires Judged(ks, begin, valids, v) && OnlySatisfied(ks, v, i)
    ensures OnlyOne(Range(begin, |ks|), valids, begin + i)
  {
    hide Satisfies, Holds;
    forall j: nat | Covers(Range(begin, |ks|), j) && j != begin + i ensures !Holds(valids, j) {
      assert !Satisfies(RapidJson, ks[j - begin], v);
    }
  }

  lemma JudgedOnly(ks: seq<Keywords>, begin: nat, valids: seq<bool>, v: JSON, i: nat)
    requires Judged(ks, begin, valids, v) && OnlyOne(Range(begin, |ks|), valids, i)
    ensures OnlySatisfied(ks, v, i - begin)
  {
    hide Satisfies, Holds;
    forall j | 0 <= j < |ks| && j != i - begin ensures !Satisfies(RapidJson, ks[j], v) {
      assert Covers(Range(begin, |ks|), begin + j);
    }
    assert Holds(valids, begin + (i - begin));
  }

  lemma JudgedOne(ks: seq<Keywords>, begin: nat, valids: seq<bool>, v: JSON)
    requires Judged(ks, begin, valids, v)
    ensures CountHolding(Range(begin, |ks|), valids) == 1 <==> OneSatisfied(RapidJson, ks, v)
  {
    hide CountHolding, OneSatisfied, OnlySatisfied, OnlyOne, Judged;
    var r := Range(begin, |ks|);
    CountOne(r, valids);
    OneIsOnly(ks, v);
    if i :| OnlySatisfied(ks, v, i) {
      assert 0 <= i by { OnlyInside(ks, v, i); }
      OnlyJudged(ks, begin, valids, v, i);
    }
    if i: nat :| OnlyOne(r, valids, i) {
      JudgedOnly(ks, begin, valids, v, i);
    }
  }

  lemma OnlyInside(ks: seq<Keywords>, v: JSON, i: int)
    requires OnlySatisfied(ks, v, i)
    ensures 0 <= i < |ks|
  {
  }

  /** Consecutive parallel schemas are judged as the keywords they were compiled from. */
  lemma {:induction false} SubsJudged(ks: seq<Keywords>, begin: nat, subs: seq<Schema>, v: JSON)
    requires AllWellFormed(ks) && NoReals(v) && Sized(v)
    requires Placed(ks, begin, subs)
    ensures Judged(ks, begin, Verdicts(subs, v), v)
    decreases v, ks, 5
  {
    hide Accepts, Satisfies, Compile, NoReals, Sized, WellFormed;
    forall i | 0 <= i < |ks| ensures Holds(Verdicts(subs, v), begin + i) == Satisfies(RapidJson, ks[i], v) {
      CompiledAccepts(ks[i], v);
    }
  }

  /** The verdicts on which the end of a value depends. */
  lemma {:induction false} SubVerdicts(k: Keywords, v: JSON)
    requires WellFormed(k) && NoReals(v) && Sized(v)
    ensures var valids := Verdicts(Compile(k).subs, v);
            && Judged(k.allOf, 0, valids, v) && Judged(k.anyOf, |k.allOf|, valids, v) &&
               Judged(k.oneOf, |k.allOf| + |k.anyOf|, valids, v)
            && (k.negated.Some? ==>
                 Holds(valids, |k.allOf| + |k.anyOf| + |k.oneOf|) == Satisfies(RapidJson, k.negated.value, v))
    decreases v, k, 2
  {
    hide Accepts, Satisfies, Compile, NoReals, Sized, Judged, AllWellFormed, Placed;
    var subs := Compile(k).subs;
    SubsPlaced(k);
    SubsJudged(k.allOf, 0, subs, v);
    SubsJudged(k.anyOf, |k.allOf|, subs, v);
    SubsJudged(k.oneOf, |k.allOf| + |k.anyOf|, subs, v);
    if k.negated.Some? {
      SubNegated(k);
      CompiledAccepts(k.negated.value, v);
    }
  }

  /** The verdict on which a dependency on a schema depends. */
  lemma {:induction false} DependencyVerdict(k: Keywords, j: nat, v: JSON)
    requires WellFormed(k) && NoReals(v) && Sized(v) && j < |k.dependencies| && k.dependencies[j].OnSchema?
    ensures Holds(Verdicts(Compile(k).subs, v), DependencyBase(k) + CountSchemas(k.dependencies[..j])) ==
            Satisfies(RapidJson, k.dependencies[j].schema, v)
    decreases v, k, 2
  {
    hide Accepts, Satisfies, Compile, NoReals, Sized, CountSchemas, DependencyBase;
    SubDependency(k, j);
    CompiledAccepts(k.dependencies[j].schema, v);
  }

  /** Schema::EndValue decides allOf, anyOf, oneOf and not. */
  lemma EndValueChecked(k: Keywords, valids: seq<bool>, v: JSON)
    requires Judged(k.allOf, 0, valids, v) && Judged(k.anyOf, |k.allOf|, valids, v) &&
             Judged(k.oneOf, |k.allOf| + |k.anyOf|, valids, v)
    requires k.negated.Some? ==>
               Holds(valids, |k.allOf| + |k.anyOf| + |k.oneOf|) == Satisfies(RapidJson, k.negated.value, v)
    ensures CheckEndValue(Compile(k), valids).None? <==>
            && AllSatisfied(RapidJson, k.allOf, v)
            && (k.anyOf != [] ==> SomeSatisfied(RapidJson, k.anyOf, v))
            && (k.oneOf != [] ==> OneSatisfied(RapidJson, k.oneOf, v))
            && (k.negated.Some? ==> !Satisfies(RapidJson, k.negated.value, v))
  {
    hide Satisfies, Compile, CountHolding, Holds, Judged, OneSatisfied, SomeSatisfied, AllSatisfied;
    SubsParts(k);
    JudgedAll(k.allOf, 0, valids, v);
    JudgedAny(k.anyOf, |k.allOf|, valids, v);
    JudgedOne(k.oneOf, |k.allOf| + |k.anyOf|, valids, v);
  }

  // ---- Objects ----

  predicate DistinctNames(names: seq<Text>) {
    forall i, j :: 0 <= i < j < |names| ==> names[i] != names[j]
  }

  lemma {:induction false} AddNamesDistinct(names: seq<Text>, more: seq<Text>)
    requires DistinctNames(names)
    ensures DistinctNames(AddNames(names, more))
    decreases |more|
  {
    if more != [] {
      AddNamesDistinct(AddUnique(names, more[0]), more[1..]);
    }
  }

  lemma {:induction false} AddDeclaredDistinct(names: seq<Text>, ps: seq<Declared>)
    requires DistinctNames(names)
    ensures DistinctNames(AddDeclared(names, ps))
    decreases |ps|
  {
    if ps != [] {
      AddDeclaredDistinct(AddUnique(names, ps[0].name), ps[1..]);
    }
  }

  lemma {:induction false} AddDependenciesDistinct(names: seq<Text>, ds: seq<Dependency>)
    requires DistinctNames(names)
    ensures DistinctNames(AddDependencies(names, ds))
    decreases |ds|
  {
    if ds != [] {
      var source := AddUnique(names, ds[0].name);
      if ds[0].OnNames? {
        AddNamesDistinct(source, ds[0].targets);
      }
      AddDependenciesDistinct(if ds[0].OnNames? then AddNames(source, ds[0].targets) else source, ds[1..]);
    }
  }

  /** No name has two rows. */
  lemma TableDistinct(k: Keywords)
    ensures DistinctNames(TableNames(k))
  {
    hide AddNames, AddDeclared, AddDependencies;
    AddDeclaredDistinct([], k.properties);
    AddNamesDistinct(AddDeclared([], k.properties), k.required);
    AddDependenciesDistinct(AddNames(AddDeclared([], k.properties), k.required), k.dependencies);
  }

  lemma OccursCons(name: Text, ms: seq<Member>)
    requires ms != []
    ensures Occurs(name, ms) <==> ms[0].name == name || Occurs(name, ms[1..])
  {
    assert forall i :: 0 <= i < |ms| - 1 ==> ms[1..][i] == ms[i + 1];
    assert forall i :: 1 <= i < |ms| ==> ms[i] == ms[1..][i - 1];
  }

  /** propertyExist tells exactly which names of the table have occurred. */
  lemma {:induction false} ExistMeaning(k: Keywords, exist: seq<bool>, ms: seq<Member>, i: nat)
    requires i < |exist| == |TableNames(k)|
    ensures ExistAfter(Compile(k), exist, ms)[i] <==> exist[i] || Occurs(TableNames(k)[i], ms)
    decreases |ms|
  {
    hide Compile, TableNames, MarkExist, Occurs;
    if ms == [] {
      OccursNone(TableNames(k)[i]);
    } else {
      MarkedAt(k, exist, ms[0].name, i);
      ExistMeaning(k, MarkExist(Compile(k), exist, ms[0].name), ms[1..], i);
      OccursCons(TableNames(k)[i], ms);
    }
  }

  lemma OccursNone(name: Text)
    ensures !Occurs(name, [])
  {
  }

  lemma MarkedAt(k: Keywords, exist: seq<bool>, name: Text, i: nat)
    requires i < |exist| == |TableNames(k)|
    ensures MarkExist(Compile(k), exist, name)[i] <==> exist[i] || TableNames(k)[i] == name
  {
    hide Compile, TableNames, FindPropertyIndex;
    TableFind(k, name);
    TableDistinct(k);
  }

  /** What EndObject reads from propertyExist at row `i`. */
  lemma ExistAtEnd(k: Keywords, ms: seq<Member>, i: nat)
    requires i < |TableNames(k)| && (k.required != [] || k.dependencies != [])
    ensures Exists(ExistAfter(Compile(k), NoneExist(Compile(k)), ms), i) <==> Occurs(TableNames(k)[i], ms)
  {
    hide Compile, TableNames, Occurs, ExistAfter;
    TableSize(k);
    Presence(k);
    ExistMeaning(k, NoneExist(Compile(k)), ms, i);
  }

  lemma Presence(k: Keywords)
    ensures var s := Compile(k);
            && s.hasDependencies == (k.dependencies != []) && s.hasRequired == (k.required != [])
            && s.minProperties == SizeOr(k.minProperties, 0) && s.maxProperties == SizeOr(k.maxProperties, UINT_MAX)
            && s.minItems == SizeOr(k.minItems, 0) && s.maxItems == SizeOr(k.maxItems, UINT_MAX)
  {
    hide TableNames, Row, CompileDeclared, CompileAll, CompileDependencies, SizeOr, KindMask;
  }

  lemma RequiredChecked(k: Keywords, ms: seq<Member>)
    ensures MissesRequired(Compile(k), ExistAfter(Compile(k), NoneExist(Compile(k)), ms)) <==> !AllOccur(k.required, ms)
  {
    hide Compile, TableNames, Occurs, ExistAfter, NoneExist, Exists, Row;
    var s, names := Compile(k), TableNames(k);
    var exist := ExistAfter(s, NoneExist(s), ms);
    Presence(k);
    TableSize(k);
    if k.required != [] {
      forall i | 0 <= i < |names|
        ensures s.properties[i].required == (names[i] in k.required) && Exists(exist, i) == Occurs(names[i], ms)
      {
        TableRow(k, i);
        RowRequired(k, names, names[i]);
        ExistAtEnd(k, ms, i);
      }
      if !AllOccur(k.required, ms) {
        var n :| 0 <= n < |k.required| && !Occurs(k.required[n], ms);
        InTable(k, k.required[n]);
      }
    }
  }

  lemma RowRequired(k: Keywords, names: seq<Text>, name: Text)
    ensures Row(k, CompileDeclared(k.properties), names, name).required == (name in k.required)
  {
    hide Compile, CompileDeclared, FindDeclared, FindDependency;
  }

  lemma InTable(k: Keywords, name: Text)
    requires Mentioned(k, name)
    ensures exists i :: 0 <= i < |TableNames(k)| && TableNames(k)[i] == name
  {
    hide TableNames, Mentioned;
    TableHas(k, name);
  }

  /** The row of the source of dependency `j`. */
  lemma RowDependency(k: Keywords, names: seq<Text>, j: nat)
    requires WellFormed(k) && j < |k.dependencies|
    ensures var d := k.dependencies[j];
            var p := Row(k, CompileDeclared(k.properties), names, d.name);
            match d
            case OnNames(_, targets) => p.dependencies ==
              Some(seq(|names|, n requires 0 <= n < |names| => names[n] in targets))
            case OnSchema(_, _) =>
              p.dependencies.None? && p.dependenciesIndex == Some(DependencyBase(k) + CountSchemas(k.dependencies[..j]))
  {
    hide Compile, CompileDeclared, FindDeclared, CountSchemas, DependencyBase;
    assert FindDependency(k.dependencies, k.dependencies[j].name) == j;
  }

  lemma RowIndependent(k: Keywords, names: seq<Text>, name: Text)
    requires FindDependency(k.dependencies, name) == |k.dependencies|
    ensures var p := Row(k, CompileDeclared(k.properties), names, name);
            p.dependencies.None? && p.dependenciesIndex.None?
  {
    hide Compile, CompileDeclared, FindDeclared, CountSchemas, DependencyBase, FindDependency;
  }

  /** What the check of one row finds: the dependency of that name is broken. */
  lemma {:induction false} DependencyChecked(k: Keywords, i: nat, j: nat, v: JSON)
    requires WellFormed(k) && NoReals(v) && Sized(v) && v.Object?
    requires i < |TableNames(k)| && j < |k.dependencies| && TableNames(k)[i] == k.dependencies[j].name
    ensures var s := Compile(k);
            var exist := ExistAfter(s, NoneExist(s), v.members);
            && i < |s.properties|
            && (BreaksDependency(s, exist, Verdicts(s.subs, v), i) <==>
                  Occurs(k.dependencies[j].name, v.members) && !DependencySatisfied(RapidJson, k.dependencies[j], v))
    decreases v, k, 3, 0
  {
    hide Compile, TableNames, Occurs, ExistAfter, NoneExist, Row, Satisfies, Accepts, NoReals, Sized, Holds, WellFormed,
         CountSchemas, DependencyBase, Exists;
    var s, names := Compile(k), TableNames(k);
    var d := k.dependencies[j];
    TableSize(k);
    TableRow(k, i);
    RowDependency(k, names, j);
    ExistAtEnd(k, v.members, i);
    match d
    case OnSchema(_, _) => DependencyVerdict(k, j, v);
    case OnNames(_, targets) =>
      var row := seq(|names|, n requires 0 <= n < |names| => names[n] in targets);
      TargetsChecked(k, j, v.members, row);
  }

  lemma TargetsChecked(k: Keywords, j: nat, ms: seq<Member>, row: seq<bool>)
    requires j < |k.dependencies| && k.dependencies[j].OnNames?
    requires |row| == |TableNames(k)| && forall n :: 0 <= n < |row| ==>
             row[n] == (TableNames(k)[n] in k.dependencies[j].targets)
    ensures var exist := ExistAfter(Compile(k), NoneExist(Compile(k)), ms);
            (exists n :: 0 <= n < |TableNames(k)| && Exists(row, n) && !Exists(exist, n)) <==>
                !AllOccur(k.dependencies[j].targets, ms)
  {
    hide Compile, TableNames, Occurs, ExistAfter, NoneExist;
    var names, targets := TableNames(k), k.dependencies[j].targets;
    var exist := ExistAfter(Compile(k), NoneExist(Compile(k)), ms);
    forall n | 0 <= n < |names| ensures Exists(exist, n) == Occurs(names[n], ms) {
      ExistAtEnd(k, ms, n);
    }
    if !AllOccur(targets, ms) {
      var t :| 0 <= t < |targets| && !Occurs(targets[t], ms);
      assert targets[t] in targets;
      InTable(k, targets[t]);
      var n :| 0 <= n < |names| && names[n] == targets[t];
      assert Exists(row, n) && !Exists(exist, n);
    }
  }

  lemma {:induction false} DependenciesChecked(k: Keywords, v: JSON)
    requires WellFormed(k) && NoReals(v) && Sized(v) && v.Object?
    ensures var s := Compile(k);
            MissesDependency(s, ExistAfter(s, NoneExist(s), v.members), Verdicts(s.subs, v)) <==>
                !DependenciesSatisfied(RapidJson, k, v)
    decreases v, k, 3, 1
  {
    hide Compile, TableNames, Occurs, ExistAfter, NoneExist, Row, Satisfies, Accepts, NoReals, Sized, WellFormed,
         BreaksDependency, DependencySatisfied, FindDependency;
    var s, names := Compile(k), TableNames(k);
    var exist, valids := ExistAfter(s, NoneExist(s), v.members), Verdicts(s.subs, v);
    Presence(k);
    TableSize(k);
    if !DependenciesSatisfied(RapidJson, k, v) {
      var j :| 0 <= j < |k.dependencies| && Occurs(k.dependencies[j].name, v.members) &&
          !DependencySatisfied(RapidJson, k.dependencies[j], v);
      InTable(k, k.dependencies[j].name);
      var i :| 0 <= i < |names| && names[i] == k.dependencies[j].name;
      DependencyChecked(k, i, j, v);
    }
    if MissesDependency(s, exist, valids) {
      var i :| 0 <= i < |s.properties| && BreaksDependency(s, exist, valids, i);
      var j := FindDependency(k.dependencies, names[i]);
      if j < |k.dependencies| {
        DependencyChecked(k, i, j, v);
      } else {
        IndependentRow(k, i, exist, valids);
      }
    }
  }

  lemma IndependentRow(k: Keywords, i: nat, exist: seq<bool>, valids: seq<bool>)
    requires i < |TableNames(k)| && FindDependency(k.dependencies, TableNames(k)[i]) == |k.dependencies|
    ensures i < |Compile(k).properties| && !BreaksDependency(Compile(k), exist, valids, i)
  {
    hide Compile, TableNames, Row, FindDependency;
    TableRow(k, i);
    RowIndependent(k, TableNames(k), TableNames(k)[i]);
  }

  lemma {:induction false} EndObjectChecked(k: Keywords, v: JSON)
    requires WellFormed(k) && NoReals(v) && Sized(v) && v.Object?
    ensures var s := Compile(k);
            CheckEndObject(s, ExistAfter(s, NoneExist(s), v.members), Verdicts(s.subs, v), |v.members|).None? <==>
              AtLeast(RapidJson, |v.members|, k.minProperties) && AtMost(|v.members|, k.maxProperties) &&
                  AllOccur(k.required, v.members) &&
              DependenciesSatisfied(RapidJson, k, v)
    decreases v, k, 3, 2
  {
    hide Compile, TableNames, Occurs, ExistAfter, NoneExist, Satisfies, Accepts, NoReals, WellFormed, MissesDependency,
         MissesRequired, DependenciesSatisfied, AllOccur;
    Presence(k);
    RequiredChecked(k, v.members);
    DependenciesChecked(k, v);
  }

  lemma EndArrayChecked(k: Keywords, v: JSON)
    requires Sized(v) && v.Array?
    ensures CheckEndArray(Compile(k), |v.elements|).None? <==>
            AtLeast(RapidJson, |v.elements|, k.minItems) && AtMost(|v.elements|, k.maxItems)
  {
    hide Compile;
    Presence(k);
  }

  // ---- The theorem for documents ----

  /** The compiled schema accepts a value exactly if the value meets the document. */
  lemma {:induction false} CompiledAccepts(k: Keywords, v: JSON)
    requires WellFormed(k) && NoReals(v) && Sized(v)
    ensures Accepts(Compile(k), v) == Satisfies(RapidJson, k, v)
    decreases v, k, 4
  {
    hide Compile, Events, WellFormed, CheckValue, CheckEndValue, CheckEndObject, CheckEndArray, KindSatisfied,
         NumberSatisfied, Verdicts, ExistAfter,
         NoneExist, ElementsAccepted, MembersAccepted, ElementsSatisfied, MembersSatisfied, AtLeast, AtMost, AllOccur,
             AllSatisfied, SomeSatisfied, OneSatisfied, DependenciesSatisfied, Judged, Accepts;
    AcceptsParts(Compile(k), v);
    Positive(k);
    ValueChecked(k, v);
    SubVerdicts(k, v);
    EndValueChecked(k, Verdicts(Compile(k).subs, v), v);
    match v
    case Array(vs) =>
      ElementsAgree(k, 0, vs);
      EndArrayChecked(k, v);
    case Object(ms) =>
      MembersAgree(k, ms);
      EndObjectChecked(k, v);
    case _ =>
  }

  lemma Positive(k: Keywords)
    requires WellFormed(k)
    ensures k.multipleOf.Some? ==> k.multipleOf.value > 0
  {
  }

  lemma AcceptsParts(s: Schema, v: JSON)
    ensures Accepts(s, v) <==>
            && CheckValue(s, Events(v)[0]).None?
            && (v.Array? ==> ElementsAccepted(s, 0, v.elements) && CheckEndArray(s, |v.elements|).None?)
            && (v.Object? ==> MembersAccepted(s, v.members) &&
                              CheckEndObject(s, ExistAfter(s, NoneExist(s), v.members), Verdicts(s.subs, v),
                                  |v.members|).None?)
            && CheckEndValue(s, Verdicts(s.subs, v)).None?
  {
  }
}
