/** GenericSchemaValidator as the object that schema.h declares: its stacks and its flag change with every handler
    call. */
module SchemaValidator {
  import opened Bytes
  import opened Json
  import opened Schemas
  import opened Path
  import opened Validators

  // ---- The checks of Schema that loop ----

  /** The allOf, anyOf and oneOf loops of Schema::EndValue. */
  method CheckAtEnd(s: Schema, valids: seq<bool>) returns (k: Option<Keyword>)
    ensures k == CheckEndValue(s, valids)
  {
    var i := 0;
    while i < s.allOf.count
      invariant i <= s.allOf.count
      invariant CountHolding(s.allOf, valids) == i + CountHolding(Range(s.allOf.begin + i, s.allOf.count - i), valids)
    {
      CountBound(Range(s.allOf.begin + i + 1, s.allOf.count - i - 1), valids);
      if !Holds(valids, s.allOf.begin + i) {
        return Some(AllOfKeyword);
      }
      i := i + 1;
    }
    if s.anyOf.count > 0 {
      i := 0;
      while i < s.anyOf.count && !Holds(valids, s.anyOf.begin + i)
        invariant i <= s.anyOf.count
        invariant CountHolding(s.anyOf, valids) == CountHolding(Range(s.anyOf.begin + i, s.anyOf.count - i), valids)
      {
        i := i + 1;
      }
      if i == s.anyOf.count {
        return Some(AnyOfKeyword);
      }
    }
    if s.oneOf.count > 0 {
      var oneValid := false;
      i := 0;
      while i < s.oneOf.count
        invariant i <= s.oneOf.count
        invariant CountHolding(s.oneOf, valids) ==
                  (if oneValid then 1 else 0) + CountHolding(Range(s.oneOf.begin + i, s.oneOf.count - i), valids)
      {
        if Holds(valids, s.oneOf.begin + i) {
          if oneValid {
            return Some(OneOfKeyword);
          }
          oneValid := true;
        }
        i := i + 1;
      }
      if !oneValid {
        return Some(OneOfKeyword);
      }
    }
    k := if s.negated.Some? && Holds(valids, s.negated.value) then Some(NotKeyword) else None;
  }

  lemma {:induction false} CountBound(r: Range, valids: seq<bool>)
    ensures CountHolding(r, valids) <= r.count
    decreases r.count
  {
    if r.count > 0 {
      CountBound(Range(r.begin + 1, r.count - 1), valids);
    }
  }

  /** FindPropertyIndex. */
  method FindProperty(ps: seq<Property>, name: Text) returns (found: bool, index: nat)
    ensures index == FindPropertyIndex(ps, name) && found == (index < |ps|)
  {
    index := 0;
    while index < |ps|
      invariant index <= |ps|
      invariant FindPropertyIndex(ps, name) == index + FindPropertyIndex(ps[index..], name)
    {
      assert ps[index..][1..] == ps[index + 1..];
      if ps[index].name == name {
        return true, index;
      }
      index := index + 1;
    }
    found := false;
  }

  /** The loops of Schema::EndObject. */
  method CheckMembersAtEnd(s: Schema, exist: seq<bool>, valids: seq<bool>, memberCount: nat)
      returns (k: Option<Keyword>)
    ensures k == CheckEndObject(s, exist, valids, memberCount)
  {
    if s.hasRequired {
      var i := 0;
      while i < |s.properties|
        invariant i <= |s.properties|
        invariant forall j :: 0 <= j < i && s.properties[j].required ==> Exists(exist, j)
      {
        if s.properties[i].required && !Exists(exist, i) {
          return Some(RequiredKeyword);
        }
        i := i + 1;
      }
    }
    if memberCount < s.minProperties {
      return Some(MinPropertiesKeyword);
    }
    if memberCount > s.maxProperties {
      return Some(MaxPropertiesKeyword);
    }
    if s.hasDependencies {
      var i := 0;
      while i < |s.properties|
        invariant i <= |s.properties|
        invariant forall j :: 0 <= j < i ==> !BreaksDependency(s, exist, valids, j)
      {
        var broken := CheckDependency(s, exist, valids, i);
        if broken {
          return Some(DependenciesKeyword);
        }
        i := i + 1;
      }
    }
    k := None;
  }

  method CheckDependency(s: Schema, exist: seq<bool>, valids: seq<bool>, i: nat) returns (broken: bool)
    requires i < |s.properties|
    ensures broken == BreaksDependency(s, exist, valids, i)
  {
    var p := s.properties[i];
    if !Exists(exist, i) {
      return false;
    }
    if p.dependencies.Some? {
      var target := 0;
      while target < |s.properties|
        invariant target <= |s.properties|
        invariant forall j :: 0 <= j < target ==> !(Exists(p.dependencies.value, j) && !Exists(exist, j))
      {
        if Exists(p.dependencies.value, target) && !Exists(exist, target) {
          return true;
        }
        target := target + 1;
      }
      return false;
    }
    broken := p.dependenciesIndex.Some? && !Holds(valids, p.dependenciesIndex.value);
  }

  // ---- The validator ----

  /** schemaStack_ from bottom to top, read as a stack. */
  function StackOf(cs: seq<Context>): Stack {
    if cs == [] then Empty else Push(cs[|cs| - 1], StackOf(cs[..|cs| - 1]))
  }

  function Fed(c: Context, e: Event): Context {
    c.(validators := Feed(c.validators, e))
  }

  lemma {:induction false} FedStack(cs: seq<Context>, ds: seq<Context>, e: Event)
    requires |cs| == |ds| && forall i :: 0 <= i < |cs| ==> ds[i] == Fed(cs[i], e)
    ensures StackOf(ds) == FeedStack(StackOf(cs), e)
    decreases |cs|
  {
    hide Feed;
    if cs != [] {
      FedStack(cs[..|cs| - 1], ds[..|ds| - 1], e);
    }
  }

  lemma PushOf(cs: seq<Context>, c: Context)
    ensures StackOf(cs + [c]) == Push(c, StackOf(cs))
  {
    assert (cs + [c])[..|cs|] == cs;
  }

  lemma TopOf(cs: seq<Context>, c: Context)
    requires cs != []
    ensures StackOf(cs) == Push(cs[|cs| - 1], StackOf(cs[..|cs| - 1]))
    ensures StackOf(cs[|cs| - 1 := c]) == Push(c, StackOf(cs[..|cs| - 1]))
  {
    assert cs[|cs| - 1 := c][..|cs| - 1] == cs[..|cs| - 1];
  }

  class GenericSchemaValidator {
    const root: Schema
    var schemaStack: seq<Context>
    var documentStack: Text
    var valid: bool

    /** The state as a value. */
    function State(): Validator
      reads this
    {
      Validator(root, StackOf(schemaStack), documentStack, valid)
    }

    constructor (root: Schema)
      ensures State() == Fresh(root)
    {
      this.root := root;
      schemaStack := [];
      documentStack := [];
      valid := true;
    }

    method Reset()
      modifies this
      ensures State() == Fresh(root)
    {
      schemaStack := [];
      documentStack := [];
      valid := true;
    }

    /** RAPIDJSON_INVALID_KEYWORD_RETURN on the current context. */
    method Invalidate(k: Keyword)
      modifies this
      ensures State() == Fail(old(State()), k)
    {
      if schemaStack != [] {
        var c := schemaStack[|schemaStack| - 1].(invalidKeyword := Some(k));
        TopOf(schemaStack, c);
        schemaStack := schemaStack[|schemaStack| - 1 := c];
      }
      valid := false;
    }

    method AppendToken(name: Text)
      modifies this`documentStack
      ensures documentStack == old(documentStack) + NameToken(name)
    {
      documentStack := documentStack + [SLASH];
      var i := 0;
      Assoc(old(documentStack), [SLASH], EscapeName(name));
      assert name[0..] == name;
      while i < |name|
        invariant i <= |name|
        invariant documentStack + EscapeName(name[i..]) == old(documentStack) + NameToken(name)
      {
        var c := name[i];
        assert name[i..][1..] == name[i + 1..];
        Assoc(documentStack, EscapeUnit(c), EscapeName(name[i + 1..]));
        if c == TILDE {
          documentStack := documentStack + [TILDE, ZERO];
        } else if c == SLASH {
          documentStack := documentStack + [TILDE, ONE];
        } else {
          documentStack := documentStack + [c];
        }
        i := i + 1;
      }
      assert documentStack + [] == documentStack;
    }

    /** The loop at the end of EndValue. */
    method RemoveToken()
      modifies this`documentStack
      ensures documentStack == PopToken(old(documentStack))
    {
      var more := true;
      while more && documentStack != []
        invariant more ==> PopToken(documentStack) == PopToken(old(documentStack))
        invariant !more ==> documentStack == PopToken(old(documentStack))
        decreases |documentStack|
      {
        more := documentStack[|documentStack| - 1] != SLASH;
        documentStack := documentStack[..|documentStack| - 1];
      }
    }

    /** A value may begin: it is the root, an element, or behind a key. */
    predicate CanBegin()
      reads this
    {
      schemaStack == [] || schemaStack[|schemaStack| - 1].inArray || schemaStack[|schemaStack| - 1].valueSchema.Some?
    }

    method BeginValue() returns (ok: bool)
      requires valid && CanBegin()
      modifies this
      ensures State() == Validators.BeginValue(old(State())) && ok == valid
      ensures ok ==> schemaStack != []
    {
      hide ElementSchema, IndexToken, Fail;
      if schemaStack == [] {
        PushOf(schemaStack, NewContext(root));
        schemaStack := schemaStack + [NewContext(root)];
        return true;
      }
      var top := |schemaStack| - 1;
      var c := schemaStack[top];
      TopOf(schemaStack, c);
      if c.inArray {
        documentStack := documentStack + IndexToken(c.arrayElementIndex);
        var s := ElementSchema(c.schema, c.arrayElementIndex);
        if s.None? {
          Invalidate(ItemsKeyword);
          return false;
        }
        c := c.(valueSchema := s, arrayElementIndex := c.arrayElementIndex + 1);
        TopOf(schemaStack, c);
        schemaStack := schemaStack[top := c];
      }
      PushOf(schemaStack, NewContext(c.valueSchema.value));
      schemaStack := schemaStack + [NewContext(c.valueSchema.value)];
      ok := true;
    }

    /** RAPIDJSON_SCHEMA_HANDLE_PARALLEL_: every parallel validator of every open context is fed the event. */
    method FeedParallel(e: Event)
      modifies this`schemaStack
      ensures State() == old(State()).(stack := FeedStack(old(State()).stack, e))
      ensures |schemaStack| == |old(schemaStack)|
    {
      hide Feed;
      var i := 0;
      while i < |schemaStack|
        invariant i <= |schemaStack| == |old(schemaStack)|
        invariant forall n :: 0 <= n < i ==> schemaStack[n] == Fed(old(schemaStack)[n], e)
        invariant forall n :: i <= n < |schemaStack| ==> schemaStack[n] == old(schemaStack)[n]
      {
        var vs := FeedEach(schemaStack[i].validators, e);
        schemaStack := schemaStack[i := schemaStack[i].(validators := vs)];
        i := i + 1;
      }
      FedStack(old(schemaStack), schemaStack, e);
    }

    /** The loop over the validators of one context. */
    static method FeedEach(vs: seq<Validator>, e: Event) returns (r: seq<Validator>)
      ensures r == Feed(vs, e)
    {
      hide Step;
      r := vs;
      var i := 0;
      while i < |vs|
        invariant i <= |vs| == |r|
        invariant forall n :: 0 <= n < i ==> r[n] == Step(vs[n], e)
        invariant forall n :: i <= n < |vs| ==> r[n] == vs[n]
      {
        r := r[i := Step(r[i], e)];
        i := i + 1;
      }
      ghost var f := Feed(vs, e);
      assert forall n :: 0 <= n < |vs| ==> r[n] == f[n];
    }

    /** CreateParallelValidator. */
    static method CreateParallelValidators(s: Schema) returns (vs: seq<Validator>)
      ensures vs == FreshAll(s.subs)
    {
      vs := [];
      var i := 0;
      while i < |s.subs|
        invariant i <= |s.subs| && vs == FreshAll(s.subs)[..i]
      {
        vs := vs + [Fresh(s.subs[i])];
        i := i + 1;
      }
    }

    /** RAPIDJSON_SCHEMA_HANDLE_BEGIN_. */
    method HandleBegin(e: Event) returns (ok: bool)
      requires valid && CanBegin()
      modifies this
      ensures State() == Validators.HandleBegin(old(State()), e) && ok == valid
      ensures ok ==> schemaStack != []
    {
      hide CheckValue, Fail, NoneExist, Validators.BeginValue;
      var begun := BeginValue();
      if !begun {
        return false;
      }
      var top := |schemaStack| - 1;
      var c := schemaStack[top];
      TopOf(schemaStack, c);
      var k := CheckValue(c.schema, e);
      if k.Some? {
        Invalidate(k.value);
        return false;
      }
      if e.EStartObject? {
        c := c.(propertyExist := NoneExist(c.schema));
      } else if e.EStartArray? {
        c := c.(arrayElementIndex := 0, inArray := true);
      }
      var vs := CreateParallelValidators(c.schema);
      c := c.(validators := vs);
      TopOf(schemaStack, c);
      schemaStack := schemaStack[top := c];
      ok := true;
    }

    method EndValue() returns (ok: bool)
      requires valid && schemaStack != []
      modifies this
      ensures State() == Validators.EndValue(old(State())) && ok == valid
    {
      hide CheckEndValue, Fail, Valids, PopToken;
      var c := schemaStack[|schemaStack| - 1];
      TopOf(schemaStack, c);
      var k := CheckAtEnd(c.schema, Valids(c.validators));
      if k.Some? {
        Invalidate(k.value);
        return false;
      }
      schemaStack := schemaStack[..|schemaStack| - 1];
      RemoveToken();
      ok := true;
    }

    /** Null, Bool, Int, Uint, Int64, Uint64, String and RawNumber: RAPIDJSON_SCHEMA_HANDLE_VALUE_. */
    method Value(e: Event) returns (ok: bool)
      requires !e.EDouble? && !e.EKey? && !e.EStartObject? && !e.EStartArray? && !e.EEndObject? && !e.EEndArray?
      requires valid ==> CanBegin()
      modifies this
      ensures State() == Step(old(State()), e) && ok == valid
    {
      hide Validators.HandleBegin, Validators.EndValue, FeedStack;
      if !valid {
        return false;
      }
      var begun := HandleBegin(e);
      if !begun {
        return false;
      }
      FeedParallel(e);
      ok := EndValue();
    }

    /** StartObject and StartArray. */
    method Start(e: Event) returns (ok: bool)
      requires e.EStartObject? || e.EStartArray?
      requires valid ==> CanBegin()
      modifies this
      ensures State() == Step(old(State()), e) && ok == valid
    {
      hide Validators.HandleBegin, FeedStack;
      if !valid {
        return false;
      }
      var begun := HandleBegin(e);
      if !begun {
        return false;
      }
      FeedParallel(e);
      ok := true;
    }

    method Key(name: Text) returns (ok: bool)
      requires valid ==> schemaStack != []
      modifies this
      ensures State() == Step(old(State()), EKey(name)) && ok == valid
    {
      hide FeedStack, NameToken, Fail, FindPropertyIndex;
      if !valid {
        return false;
      }
      AppendToken(name);
      var top := |schemaStack| - 1;
      var c := schemaStack[top];
      var s := c.schema;
      TopOf(schemaStack, c);
      var found, index := FindProperty(s.properties, name);
      if found {
        c := c.(valueSchema := Some(s.properties[index].schema));
        if index < |c.propertyExist| {
          c := c.(propertyExist := c.propertyExist[index := true]);
        }
      } else if s.additionalPropertiesSchema.Some? {
        c := c.(valueSchema := s.additionalPropertiesSchema);
      } else if s.additionalProperties {
        c := c.(valueSchema := Some(TYPELESS));
      } else {
        Invalidate(AdditionalPropertiesKeyword);
        return false;
      }
      TopOf(schemaStack, c);
      schemaStack := schemaStack[top := c];
      FeedParallel(EKey(name));
      ok := true;
    }

    method EndObject(memberCount: nat) returns (ok: bool)
      requires valid ==> schemaStack != []
      modifies this
      ensures State() == Step(old(State()), EEndObject(memberCount)) && ok == valid
    {
      hide FeedStack, Fail, CheckEndObject, Validators.EndValue, Valids;
      if !valid {
        return false;
      }
      FeedParallel(EEndObject(memberCount));
      var c := schemaStack[|schemaStack| - 1];
      TopOf(schemaStack, c);
      var k := CheckMembersAtEnd(c.schema, c.propertyExist, Valids(c.validators), memberCount);
      if k.Some? {
        Invalidate(k.value);
        return false;
      }
      ok := EndValue();
    }

    method EndArray(elementCount: nat) returns (ok: bool)
      requires valid ==> schemaStack != []
      modifies this
      ensures State() == Step(old(State()), EEndArray(elementCount)) && ok == valid
    {
      hide FeedStack, Fail, CheckEndArray, Validators.EndValue;
      if !valid {
        return false;
      }
      FeedParallel(EEndArray(elementCount));
      var top := |schemaStack| - 1;
      var c := schemaStack[top].(inArray := false);
      TopOf(schemaStack, c);
      schemaStack := schemaStack[top := c];
      var k := CheckEndArray(c.schema, elementCount);
      if k.Some? {
        Invalidate(k.value);
        return false;
      }
      ok := EndValue();
    }
  }
}
