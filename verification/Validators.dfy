/** GenericSchemaValidator: the state a stream of events drives, with the parallel validators inside it. */
module Validators {
  import opened Bytes
  import opened Json
  import opened Schemas
  import opened Path

  /** SchemaValidationContext of one open value. */
  datatype Context = Context(
    schema: Schema,
    valueSchema: Option<Schema>,
    validators: seq<Validator>,
    arrayElementIndex: nat,
    propertyExist: seq<bool>,
    inArray: bool,
    invalidKeyword: Option<Keyword>)

  /** schemaStack_, the current context on top. */
  datatype Stack = Empty | Push(top: Context, below: Stack)

  datatype Validator = Validator(root: Schema, stack: Stack, path: Text, valid: bool)

  function Fresh(root: Schema): Validator {
    Validator(root, Empty, [], true)
  }

  function FreshAll(ss: seq<Schema>): (r: seq<Validator>)
    ensures |r| == |ss| && forall i :: 0 <= i < |ss| ==> r[i] == Fresh(ss[i])
  {
    seq(|ss|, i requires 0 <= i < |ss| => Fresh(ss[i]))
  }

  function NewContext(s: Schema): Context {
    Context(s, None, [], 0, [], false, None)
  }

  function Valids(vs: seq<Validator>): (r: seq<bool>)
    ensures |r| == |vs|
  {
    seq(|vs|, i requires 0 <= i < |vs| => vs[i].valid)
  }

  /** A check fails: the current context names the keyword and the validator is invalid from then on. */
  function Fail(w: Validator, keyword: Keyword): (r: Validator)
    ensures !r.valid && r.root == w.root && r.path == w.path
  {
    if w.stack.Empty? then w.(valid := false)
    else w.(valid := false, stack := Push(w.stack.top.(invalidKeyword := Some(keyword)), w.stack.below))
  }

  // ---- Before the parallel validators are fed ----

  /** The path of the value about to begin. */
  function BeginPath(w: Validator): Text {
    if w.stack.Push? && w.stack.top.inArray then w.path + IndexToken(w.stack.top.arrayElementIndex) else w.path
  }

  /** The schema of the value about to begin; None where the array refuses it or no key has been given. */
  function ValueSchema(w: Validator): Option<Schema> {
    if w.stack.Empty? then Some(w.root)
    else if w.stack.top.inArray then ElementSchema(w.stack.top.schema, w.stack.top.arrayElementIndex)
    else w.stack.top.valueSchema
  }

  /** The context of the enclosing container once the value has begun. */
  function Advance(c: Context): Context {
    if !c.inArray then c
    else c.(valueSchema := ElementSchema(c.schema, c.arrayElementIndex), arrayElementIndex := c.arrayElementIndex + 1)
  }

  function AdvanceTop(stack: Stack): Stack {
    if stack.Empty? then Empty else Push(Advance(stack.top), stack.below)
  }

  /** BeginValue. */
  function BeginValue(w: Validator): Validator {
    if ValueSchema(w).None? then Fail(w.(path := BeginPath(w)), ItemsKeyword)
    else w.(path := BeginPath(w), stack := Push(NewContext(ValueSchema(w).value), AdvanceTop(w.stack)))
  }

  /** What Schema::StartObject, StartArray and CreateParallelValidator put into the new context. */
  function Opened(c: Context, e: Event): Context {
    c.(validators := FreshAll(c.schema.subs),
       propertyExist := if e.EStartObject? then NoneExist(c.schema) else c.propertyExist,
       arrayElementIndex := if e.EStartArray? then 0 else c.arrayElementIndex,
       inArray := e.EStartArray? || c.inArray)
  }

  /** RAPIDJSON_SCHEMA_HANDLE_BEGIN_. */
  function HandleBegin(w: Validator, e: Event): Validator {
    var b := BeginValue(w);
    if !b.valid || b.stack.Empty? then b
    else if CheckValue(b.stack.top.schema, e).Some? then Fail(b, CheckValue(b.stack.top.schema, e).value)
    else b.(stack := Push(Opened(b.stack.top, e), b.stack.below))
  }

  /** The part of Key before the parallel validators are fed. */
  function HandleKey(w: Validator, name: Text): Validator {
    if w.stack.Empty? then Fail(w, TypeKeyword)
    else
      var c := w.stack.top;
      var x := w.(path := w.path + NameToken(name));
      if MemberSchema(c.schema, name).None? then Fail(x, AdditionalPropertiesKeyword)
      else x.(stack := Push(Keyed(c, name), w.stack.below))
  }

  function Keyed(c: Context, name: Text): Context {
    c.(valueSchema := MemberSchema(c.schema, name), propertyExist := MarkExist(c.schema, c.propertyExist, name))
  }

  function Before(w: Validator, e: Event): Validator {
    match e
    case EKey(name) => HandleKey(w, name)
    case EEndObject(_) => if w.stack.Empty? then Fail(w, TypeKeyword) else w
    case EEndArray(_) => if w.stack.Empty? then Fail(w, TypeKeyword) else w
    case _ => HandleBegin(w, e)
  }

  // ---- After the parallel validators are fed ----

  /** EndValue: the verdicts of the parallel validators are combined and the context is left. */
  function EndValue(w: Validator): Validator {
    if w.stack.Empty? then w
    else
      var c := w.stack.top;
      var k := CheckEndValue(c.schema, Valids(c.validators));
      if k.Some? then Fail(w, k.value) else w.(stack := w.stack.below, path := PopToken(w.path))
  }

  function HandleEndObject(w: Validator, memberCount: nat): Validator {
    if w.stack.Empty? then w
    else
      var c := w.stack.top;
      var k := CheckEndObject(c.schema, c.propertyExist, Valids(c.validators), memberCount);
      if k.Some? then Fail(w, k.value) else EndValue(w)
  }

  function HandleEndArray(w: Validator, elementCount: nat): Validator {
    if w.stack.Empty? then w
    else
      var x := w.(stack := Push(w.stack.top.(inArray := false), w.stack.below));
      var k := CheckEndArray(w.stack.top.schema, elementCount);
      if k.Some? then Fail(x, k.value) else EndValue(x)
  }

  function After(w: Validator, e: Event): Validator {
    match e
    case EKey(_) => w
    case EStartObject => w
    case EStartArray => w
    case EEndObject(n) => HandleEndObject(w, n)
    case EEndArray(n) => HandleEndArray(w, n)
    case _ => EndValue(w)
  }

  // ---- How deep validators are nested, which bounds the feeding ----

  function Rank(w: Validator): nat
    decreases w, 1
  {
    1 + Max(Height(w.root), StackRank(w.stack))
  }

  function StackRank(stack: Stack): nat
    decreases stack, 0
  {
    match stack
    case Empty => 0
    case Push(c, below) => Max(ContextRank(c), StackRank(below))
  }

  function ContextRank(c: Context): nat
    decreases c, 3
  {
    Max(Max(Height(c.schema), OptionHeight(c.valueSchema)), Ranks(c.validators))
  }

  function Ranks(vs: seq<Validator>): (r: nat)
    ensures forall i :: 0 <= i < |vs| ==> Rank(vs[i]) <= r
    decreases vs, 2
  {
    if vs == [] then 0 else Max(Rank(vs[0]), Ranks(vs[1..]))
  }

  /** The schema chosen for an element is nested in the schema of the array. */
  lemma ElementSchemaHeight(s: Schema, index: nat)
    ensures OptionHeight(ElementSchema(s, index)) <= Height(s)
  {
    TypelessHeight();
    if s.itemsList.None? && index < |s.itemsTuple| {
      assert Height(s.itemsTuple[index]) <= Heights(s.itemsTuple);
    }
  }

  lemma TypelessHeight()
    ensures Height(TYPELESS) == 1
  {
  }

  lemma MemberSchemaHeight(s: Schema, name: Text)
    ensures OptionHeight(MemberSchema(s, name)) <= Height(s)
  {
    TypelessHeight();
    var i := FindPropertyIndex(s.properties, name);
    if i < |s.properties| {
      assert Height(s.properties[i].schema) <= PropertyHeights(s.properties);
    }
  }

  lemma {:induction false} FreshRanks(ss: seq<Schema>)
    ensures Ranks(FreshAll(ss)) <= 1 + Heights(ss)
    decreases |ss|
  {
    hide Height;
    if ss == [] {
      assert FreshAll(ss) == [];
    } else {
      assert FreshAll(ss)[1..] == FreshAll(ss[1..]);
      FreshRanks(ss[1..]);
      assert Rank(Fresh(ss[0])) == 1 + Height(ss[0]);
    }
  }

  lemma OpenedRank(s: Schema, e: Event)
    ensures ContextRank(Opened(NewContext(s), e)) <= Height(s)
  {
    FreshRanks(s.subs);
  }

  lemma AdvanceRank(stack: Stack)
    ensures StackRank(AdvanceTop(stack)) <= StackRank(stack)
  {
    hide Height, Ranks, ElementSchema, OptionHeight;
    if stack.Push? {
      ElementSchemaHeight(stack.top.schema, stack.top.arrayElementIndex);
    }
  }

  lemma ValueSchemaRank(w: Validator)
    ensures OptionHeight(ValueSchema(w)) < Rank(w)
  {
    hide Height, Ranks, ElementSchema;
    if w.stack.Push? {
      ElementSchemaHeight(w.stack.top.schema, w.stack.top.arrayElementIndex);
      assert StackRank(w.stack) >= ContextRank(w.stack.top);
    }
  }

  /** What is on the stack when the parallel validators are fed is nested less deeply than the validator. */
  lemma BeforeRank(w: Validator, e: Event)
    requires Before(w, e).valid
    ensures StackRank(Before(w, e).stack) < Rank(w)
  {
    hide Height, Heights, Ranks, ElementSchema, MemberSchema, MarkExist, CheckValue;
    match e
    case EKey(name) =>
      var c := w.stack.top;
      MemberSchemaHeight(c.schema, name);
      assert StackRank(w.stack) == Max(ContextRank(c), StackRank(w.stack.below));
      assert ContextRank(Keyed(c, name)) <= ContextRank(c);
    case EEndObject(_) =>
    case EEndArray(_) =>
    case _ => BeginRank(w, e);
  }

  lemma BeginRank(w: Validator, e: Event)
    requires HandleBegin(w, e).valid
    ensures StackRank(HandleBegin(w, e).stack) < Rank(w)
  {
    hide Height, Ranks, ElementSchema, CheckValue, Opened, ContextRank, AdvanceTop, ValueSchema;
    var s := ValueSchema(w).value;
    OpenedRank(s, e);
    ValueSchemaRank(w);
    AdvanceRank(w.stack);
  }

  // ---- One event ----

  /** One handler call: nothing once invalid; else the current schema, all parallel validators of all contexts, and
      at the end of a value the combination of their verdicts. */
  function Step(w: Validator, e: Event): Validator
    decreases Rank(w), 0, w.stack, 0
  {
    if !w.valid then w
    else
      var b := Before(w, e);
      if !b.valid then b
      else
        BeforeRank(w, e);
        After(b.(stack := FeedStack(b.stack, e)), e)
  }

  /** RAPIDJSON_SCHEMA_HANDLE_PARALLEL_. */
  function FeedStack(stack: Stack, e: Event): Stack
    decreases StackRank(stack), 2, stack, 0
  {
    match stack
    case Empty => Empty
    case Push(c, below) =>
      assert Ranks(c.validators) <= ContextRank(c) <= StackRank(stack);
      Push(c.(validators := Feed(c.validators, e)), FeedStack(below, e))
  }

  function Feed(vs: seq<Validator>, e: Event): (r: seq<Validator>)
    ensures |r| == |vs| && forall i :: 0 <= i < |vs| ==> r[i] == Step(vs[i], e)
    decreases Ranks(vs), 1, Empty, |vs|
  {
    if vs == [] then [] else [Step(vs[0], e)] + Feed(vs[1..], e)
  }

  function Run(w: Validator, es: seq<Event>): Validator
    decreases |es|
  {
    if es == [] then w else Run(Step(w, es[0]), es[1..])
  }
}
