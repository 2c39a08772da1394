/** JSON values, the Handler events that describe them, and the event stream of a value. */
module Json {
  import opened Bytes

  datatype Option<+T> = None | Some(value: T)

  const INT_MIN: int := -0x8000_0000
  const INT_MAX: int := 0x7FFF_FFFF
  const UINT_MAX: int := 0xFFFF_FFFF
  const INT64_MIN: int := -0x8000_0000_0000_0000
  const INT64_MAX: int := 0x7FFF_FFFF_FFFF_FFFF
  const UINT64_MAX: int := 0xFFFF_FFFF_FFFF_FFFF

  /** A number held as an integer lies in the union of the signed and unsigned 64-bit ranges. */
  type Int64 = n: int | INT64_MIN <= n <= UINT64_MAX

  /** A DOM value. `Real` stands for a double and keeps the numeral it was read from. */
  datatype JSON =
    | Null
    | Bool(b: bool)
    | Number(n: Int64)
    | Real(lexeme: Text)
    | String(s: Text)
    | Array(elements: seq<JSON>)
    | Object(members: seq<Member>)

  datatype Member = Member(name: Text, value: JSON)

  /** The calls of the Handler concept. */
  datatype Event =
    | ENull
    | EBool(b: bool)
    | EInt(i: int)
    | EUint(u: int)
    | EInt64(i64: int)
    | EUint64(u64: int)
    | EDouble(lexeme: Text)
    | ERawNumber(lexeme: Text)
    | EString(s: Text)
    | EStartObject
    | EKey(name: Text)
    | EEndObject(memberCount: nat)
    | EStartArray
    | EEndArray(elementCount: nat)

  /** The arrays and objects open at some place, innermost first. */
  datatype Nest = Outermost | Within(inArray: bool, outer: Nest)

  function Outside(nest: Nest): Nest {
    if nest.Within? then nest.outer else Outermost
  }

  /** The event by which GenericValue::Accept reports integer `n`: the narrowest signed kind first. */
  function NumberEvent(n: Int64): Event {
    if INT_MIN <= n <= INT_MAX then EInt(n)
    else if 0 <= n <= UINT_MAX then EUint(n)
    else if n <= INT64_MAX then EInt64(n)
    else EUint64(n)
  }

  /** The integer an event reports, whichever of the four kinds reports it. */
  function IntegerOf(e: Event): int
    requires e.EInt? || e.EUint? || e.EInt64? || e.EUint64?
  {
    match e
    case EInt(n) => n
    case EUint(n) => n
    case EInt64(n) => n
    case EUint64(n) => n
  }

  /** An integer event carries a value of its kind's C++ type. */
  predicate InKind(e: Event) {
    match e
    case EInt(n) => INT_MIN <= n <= INT_MAX
    case EUint(n) => 0 <= n <= UINT_MAX
    case EInt64(n) => INT64_MIN <= n <= INT64_MAX
    case EUint64(n) => 0 <= n <= UINT64_MAX
    case _ => true
  }

  /** An event with the way a number was reported forgotten: the kinds of an integer are one, and a raw number is
      the string that BaseReaderHandler and the DOM take it for. */
  function Canonical(e: Event): Event {
    if (e.EInt? || e.EUint? || e.EInt64? || e.EUint64?) && InKind(e) then NumberEvent(IntegerOf(e))
    else if e.ERawNumber? then EString(e.lexeme)
    else e
  }

  function CanonicalAll(es: seq<Event>): (r: seq<Event>)
    ensures |r| == |es|
  {
    seq(|es|, i requires 0 <= i < |es| => Canonical(es[i]))
  }

  lemma CanonicalAppend(es: seq<Event>, e: Event)
    ensures CanonicalAll(es + [e]) == CanonicalAll(es) + [Canonical(e)]
  {
  }

  /** GenericValue::Accept: the event stream of a value. */
  function Events(v: JSON): (es: seq<Event>)
    ensures es != []
    decreases v, 1
  {
    match v
    case Null => [ENull]
    case Bool(b) => [EBool(b)]
    case Number(n) => [NumberEvent(n)]
    case Real(x) => [EDouble(x)]
    case String(s) => [EString(s)]
    case Array(vs) => [EStartArray] + ElementEvents(vs) + [EEndArray(|vs|)]
    case Object(ms) => [EStartObject] + MemberEvents(ms) + [EEndObject(|ms|)]
  }

  function ElementEvents(vs: seq<JSON>): seq<Event>
    decreases vs, 0
  {
    if vs == [] then [] else Events(vs[0]) + ElementEvents(vs[1..])
  }

  function MemberEvents(ms: seq<Member>): seq<Event>
    decreases ms, 0
  {
    if ms == [] then []
    else [EKey(ms[0].name)] + Events(ms[0].value) + MemberEvents(ms[1..])
  }

  /** GenericValue::FindMember: the first member of that name, |ms| if there is none. */
  function FindMember(ms: seq<Member>, name: Text): (i: nat)
    ensures i <= |ms|
    ensures i < |ms| ==> ms[i].name == name
    ensures forall j :: 0 <= j < i ==> ms[j].name != name
  {
    if ms == [] || ms[0].name == name then 0 else FindMember(ms[1..], name) + 1
  }

  /** No double anywhere inside. */
  predicate NoReals(v: JSON)
    decreases v, 1
  {
    match v
    case Real(_) => false
    case Array(vs) => NoRealElements(vs)
    case Object(ms) => NoRealMembers(ms)
    case _ => true
  }

  predicate NoRealElements(vs: seq<JSON>)
    decreases vs, 0
  {
    vs == [] || (NoReals(vs[0]) && NoRealElements(vs[1..]))
  }

  predicate NoRealMembers(ms: seq<Member>)
    decreases ms, 0
  {
    ms == [] || (NoReals(ms[0].value) && NoRealMembers(ms[1..]))
  }

  lemma ElementEventsCons(v: JSON, vs: seq<JSON>)
    ensures ElementEvents([v] + vs) == Events(v) + ElementEvents(vs)
  {
    assert ([v] + vs)[1..] == vs;
  }

  lemma MemberEventsCons(m: Member, ms: seq<Member>)
    ensures MemberEvents([m] + ms) == [EKey(m.name)] + Events(m.value) + MemberEvents(ms)
  {
    assert ([m] + ms)[1..] == ms;
  }

  lemma Assoc<T>(a: seq<T>, b: seq<T>, c: seq<T>)
    ensures a + b + c == a + (b + c)
  {
  }

  lemma {:induction false} ElementEventsAppend(vs: seq<JSON>, v: JSON)
    ensures ElementEvents(vs + [v]) == ElementEvents(vs) + Events(v)
  {
    if vs == [] {
      assert [v][1..] == [];
    } else {
      assert (vs + [v])[1..] == vs[1..] + [v];
      ElementEventsAppend(vs[1..], v);
    }
  }

  lemma {:induction false} MemberEventsAppend(ms: seq<Member>, m: Member)
    ensures MemberEvents(ms + [m]) == MemberEvents(ms) + [EKey(m.name)] + Events(m.value)
  {
    if ms == [] {
      assert [m][1..] == [];
    } else {
      assert (ms + [m])[1..] == ms[1..] + [m];
      MemberEventsAppend(ms[1..], m);
    }
  }
}
