/** JSON Pointer meets the event stream: the pointer of every place finds the value that is there. */
module Places {
  import opened Bytes
  import opened Json
  import opened Path
  import opened DocumentPath
  import opened Pointers
  import opened PointerLaws
  import opened PointerTree
  import opened Validators
  import opened Schemas
  import Repeats

  // ---- One step ----

  /** The pointer of a numeral finds the element of that number, as far as indices reach. */
  lemma ElementFound(vs: seq<JSON>, i: nat)
    requires i < INVALID_INDEX
    ensures Get(Array(vs), [Token(Decimal(i), IndexOf(Decimal(i)))]) == if i < |vs| then Some(vs[i]) else None
  {
    hide IndexOf, Decimal;
    DecimalIndex(i);
    GetOne(Array(vs), Token(Decimal(i), IndexOf(Decimal(i))));
  }

  lemma DecimalIndex(i: nat)
    requires i < INVALID_INDEX
    ensures IndexOf(Decimal(i)) == i
  {
    hide IndexOf, Decimal, Numeral;
    DecimalCanonical(i);
    IndexExact(Decimal(i));
  }

  /** The pointer of a name finds the member of that name, if names are distinct and hold no NUL. */
  lemma MemberFound(ms: seq<Member>, j: nat)
    requires Repeats.Distinct(ms) && j < |ms| && NUL !in ms[j].name
    ensures Child(Object(ms), Token(ms[j].name, IndexOf(ms[j].name))) == Some(ms[j].value)
  {
    hide IndexOf;
    assert FindMember(ms, ms[j].name) == j;
  }

  // ---- Every step ----

  /** Names are distinct and hold no NUL, and elements have indices. */
  predicate Findable(v: JSON)
    decreases v, 1
  {
    match v
    case Array(vs) => |vs| <= INVALID_INDEX && AllFindable(vs)
    case Object(ms) => Repeats.Distinct(ms) && MembersFindable(ms)
    case _ => true
  }

  predicate AllFindable(vs: seq<JSON>)
    decreases vs, 0
  {
    vs == [] || (Findable(vs[0]) && AllFindable(vs[1..]))
  }

  predicate MembersFindable(ms: seq<Member>)
    decreases ms, 0
  {
    ms == [] || (NUL !in ms[0].name && Findable(ms[0].value) && MembersFindable(ms[1..]))
  }

  /** The value that event `n` is about: it begins there, or behind its name, or ends there. */
  ghost predicate About(es: seq<Event>, n: nat, u: JSON)
    requires n < |es|
  {
    match es[n]
    case EKey(_) => BeginsAt(es, n + 1, Events(u))
    case EEndArray(_) => EndsAt(es, n + 1, Events(u))
    case EEndObject(_) => EndsAt(es, n + 1, Events(u))
    case _ => BeginsAt(es, n, Events(u))
  }

  predicate BeginsAt(es: seq<Event>, k: nat, us: seq<Event>) {
    k <= |es| && us <= es[k..]
  }

  predicate EndsAt(es: seq<Event>, k: nat, us: seq<Event>) {
    |us| <= k <= |es| && es[k - |us|..k] == us
  }

  lemma BeginsInside(a: seq<Event>, es: seq<Event>, b: seq<Event>, k: nat, us: seq<Event>)
    requires BeginsAt(es, k, us)
    ensures BeginsAt(a + es + b, |a| + k, us)
  {
    assert (a + es + b)[|a| + k..] == es[k..] + b;
  }

  lemma EndsInside(a: seq<Event>, es: seq<Event>, b: seq<Event>, k: nat, us: seq<Event>)
    requires EndsAt(es, k, us)
    ensures EndsAt(a + es + b, |a| + k, us)
  {
    assert (a + es + b)[|a| + k - |us|..|a| + k] == es[k - |us|..k];
  }

  lemma AboutInside(a: seq<Event>, es: seq<Event>, b: seq<Event>, n: nat, u: JSON)
    requires n < |es| && About(es, n, u)
    ensures About(a + es + b, |a| + n, u)
  {
    hide Events, BeginsAt, EndsAt;
    var us := Events(u);
    assert (a + es + b)[|a| + n] == es[n];
    if es[n].EEndArray? || es[n].EEndObject? {
      EndsInside(a, es, b, n + 1, us);
    } else {
      BeginsInside(a, es, b, if es[n].EKey? then n + 1 else n, us);
    }
  }

  /** The place behind a beginning of a longer stream. */
  lemma PlaceInside(q: Place, a: seq<Event>, es: seq<Event>, b: seq<Event>, n: nat)
    requires n <= |es| && NextAll(q, a).Some?
    ensures NextAll(q, (a + es + b)[..|a| + n]) == NextAll(NextAll(q, a).value, es[..n])
  {
    hide NextAll;
    assert (a + es + b)[..|a| + n] == a + es[..n];
    NextConcat(q, a, es[..n]);
  }

  /** The place that event `n` of a stream from `q` on is about. */
  function ConcernAt(q: Place, es: seq<Event>, n: nat): Option<Place>
    requires n < |es|
  {
    var p := NextAll(q, es[..n]);
    if p.None? then None else Concern(p.value, es[n])
  }

  lemma ConcernInside(q: Place, a: seq<Event>, es: seq<Event>, b: seq<Event>, n: nat)
    requires n < |es| && NextAll(q, a).Some?
    ensures ConcernAt(q, a + es + b, |a| + n) == ConcernAt(NextAll(q, a).value, es, n)
  {
    hide NextAll, Concern;
    PlaceInside(q, a, es, b, n);
    assert (a + es + b)[|a| + n] == es[n];
  }

  lemma ConcernFirst(q: Place, es: seq<Event>)
    requires es != []
    ensures ConcernAt(q, es, 0) == Concern(q, es[0])
  {
    assert es[..0] == [];
  }

  /** Where a value of events `us` begins: the place it is at. */
  function Begun(q: Place): Place
    requires Ready(q)
  {
    if q.Inside? && q.isArray then q.(child := Option.Some(Index(q.count)), count := q.count + 1) else q
  }

  lemma FirstConcern(q: Place, v: JSON)
    requires Ready(q)
    ensures ConcernAt(q, Events(v), 0) == Some(Begun(q))
  {
    ConcernFirst(q, Events(v));
  }

  /** Inside a value that begins at `q`: the place of event `n` is `rel` further on than that of the value, and there
      the value has `u`, which the event is about. */
  ghost predicate Located(q: Place, v: JSON, n: nat, rel: seq<Token>, u: JSON)
    requires Ready(q) && n < |Events(v)|
  {
    var c := ConcernAt(q, Events(v), n);
    c.Some? && PlacePointer(c.value) == PlacePointer(Begun(q)) + rel && Get(v, rel) == Some(u) && About(Events(v), n, u)
  }

  lemma {:induction false} Locate(q: Place, v: JSON, n: nat) returns (rel: seq<Token>, u: JSON)
    requires Ready(q) && Findable(v) && n < |Events(v)|
    ensures Located(q, v, n, rel, u)
    decreases v, 1
  {
    hide ConcernAt, PlacePointer, Get, About, ElementEvents, MemberEvents;
    if n == 0 {
      rel, u := [], v;
      Itself(q, v);
    } else {
      match v
      case Array(vs) => rel, u := LocateInArray(q, vs, n);
      case Object(ms) => rel, u := LocateInObject(q, ms, n);
      case _ =>
    }
  }

  lemma Itself(q: Place, v: JSON)
    requires Ready(q)
    ensures Located(q, v, 0, [], v)
  {
    hide ConcernAt;
    FirstConcern(q, v);
    Begins(v);
    assert PlacePointer(Begun(q)) + [] == PlacePointer(Begun(q));
  }

  lemma Begins(v: JSON)
    ensures About(Events(v), 0, v)
  {
    assert Events(v)[0..] == Events(v);
  }

  /** The end of a container is about the container. */
  lemma Ends(v: JSON)
    requires v.Array? || v.Object?
    ensures About(Events(v), |Events(v)| - 1, v)
  {
    var es := Events(v);
    assert es[|es| - 1 + 1 - |es|..|es| - 1 + 1] == es;
  }

  lemma {:induction false} LocateInArray(q: Place, vs: seq<JSON>, n: nat) returns (rel: seq<Token>, u: JSON)
    requires Ready(q) && Findable(Array(vs)) && 0 < n < |Events(Array(vs))|
    ensures Located(q, Array(vs), n, rel, u)
    decreases vs, 1
  {
    hide NextAll, ElementEvents, PlacePointer, Get, About, Concern;
    var es, end := ElementEvents(vs), [EEndArray(|vs|)];
    var inside := Inside(None, 0, true, Begun(q));
    ArrayOpens(q);
    if n <= |es| {
      var j, r;
      j, r, u := LocateElement(inside, vs, n - 1);
      ConcernInside(q, [EStartArray], es, end, n - 1);
      AboutInside([EStartArray], es, end, n - 1, u);
      var t := StepPointer(Index(j));
      rel := [t] + r;
      assert Get(Array(vs), rel) == Some(u) by {
        GetElement(vs, j, r);
      }
      Assoc(PlacePointer(Begun(q)), [t], r);
    } else {
      rel, u := [], Array(vs);
      ElementsFollow(inside, vs);
      NextConcat(q, [EStartArray], es);
      ContainerEnd(q, [EStartArray] + es, EEndArray(|vs|), inside.(count := |vs|));
      Ends(Array(vs));
      assert Get(Array(vs), []) == Some(Array(vs)) by { GetNothing(Array(vs)); }
    }
  }

  lemma GetNothing(v: JSON)
    ensures Get(v, []) == Some(v)
  {
  }

  lemma ArrayOpens(q: Place)
    requires Ready(q)
    ensures NextAll(q, [EStartArray]) == Some(Inside(None, 0, true, Begun(q)))
  {
    NextOne(q, EStartArray);
  }

  lemma ObjectOpens(q: Place)
    requires Ready(q)
    ensures NextAll(q, [EStartObject]) == Some(Inside(None, 0, false, Begun(q)))
  {
    NextOne(q, EStartObject);
  }

  /** The place of the event that ends a container is that of the container. */
  lemma ContainerEnd(q: Place, a: seq<Event>, e: Event, p: Place)
    requires NextAll(q, a) == Some(p) && p.Inside? && p.child.None?
    requires if p.isArray then e.EEndArray? else e.EEndObject?
    ensures ConcernAt(q, a + [e], |a|) == Some(p)
    ensures PlacePointer(p) == PlacePointer(p.outer) + []
  {
    hide NextAll, PlacePointer;
    assert (a + [e])[..|a|] == a;
    assert PlacePointer(p) == PlacePointer(p.outer) + [] by { NoChild(p); }
  }

  lemma NoChild(p: Place)
    requires p.Inside? && p.child.None?
    ensures PlacePointer(p) == PlacePointer(p.outer) + []
  {
  }

  lemma GetElement(vs: seq<JSON>, j: nat, r: seq<Token>)
    requires j < |vs| <= INVALID_INDEX
    ensures Get(Array(vs), [StepPointer(Index(j))] + r) == Get(vs[j], r)
  {
    hide IndexOf, Decimal;
    DecimalIndex(j);
    assert ([StepPointer(Index(j))] + r)[1..] == r;
  }

  lemma GetMember(ms: seq<Member>, j: nat, r: seq<Token>)
    requires Repeats.Distinct(ms) && j < |ms| && NUL !in ms[j].name
    ensures Get(Object(ms), [StepPointer(Name(ms[j].name))] + r) == Get(ms[j].value, r)
  {
    hide IndexOf;
    MemberFound(ms, j);
    assert ([StepPointer(Name(ms[j].name))] + r)[1..] == r;
  }

  /** Among elements from number q.count on: event `n` lies in element `j`. */
  lemma {:induction false} LocateElement(q: Place, vs: seq<JSON>, n: nat)
      returns (j: nat, rel: seq<Token>, u: JSON)
    requires q.Inside? && q.isArray && q.child.None? && AllFindable(vs) && n < |ElementEvents(vs)|
    ensures j < |vs| && Get(vs[j], rel) == Some(u) && About(ElementEvents(vs), n, u)
    ensures var c := ConcernAt(q, ElementEvents(vs), n);
            c.Some? && PlacePointer(c.value) == PlacePointer(q.outer) + [StepPointer(Index(q.count + j))] + rel
    decreases vs, 0
  {
    hide NextAll, PlacePointer, Get, About, Events, Findable, ConcernAt;
    var es, rest := Events(vs[0]), ElementEvents(vs[1..]);
    assert ElementEvents(vs) == es + rest;
    if n < |es| {
      j := 0;
      rel, u := Locate(q, vs[0], n);
      ConcernInside(q, [], es, rest, n) by { NextNone(q); }
      AboutInside([], es, rest, n, u);
      assert [] + es + rest == es + rest;
      ChildPointer(Begun(q));
      NextNone(q);
    } else {
      ValueFollows(q, vs[0]);
      var k;
      k, rel, u := LocateElement(Behind(q), vs[1..], n - |es|);
      j := k + 1;
      ConcernInside(q, es, rest, [], n - |es|);
      AboutInside(es, rest, [], n - |es|, u);
      assert es + rest + [] == es + rest;
    }
  }

  lemma ChildPointer(p: Place)
    requires p.Inside? && p.child.Some?
    ensures PlacePointer(p) == PlacePointer(p.outer) + [StepPointer(p.child.value)]
  {
  }

  lemma {:induction false} LocateInObject(q: Place, ms: seq<Member>, n: nat) returns (rel: seq<Token>, u: JSON)
    requires Ready(q) && Findable(Object(ms)) && 0 < n < |Events(Object(ms))|
    ensures Located(q, Object(ms), n, rel, u)
    decreases ms, 1
  {
    hide NextAll, MemberEvents, PlacePointer, Get, About, Concern, Repeats.Distinct;
    var es, end := MemberEvents(ms), [EEndObject(|ms|)];
    var inside := Inside(None, 0, false, Begun(q));
    ObjectOpens(q);
    if n <= |es| {
      var j, r;
      j, r, u := LocateMember(inside, ms, n - 1);
      ConcernInside(q, [EStartObject], es, end, n - 1);
      AboutInside([EStartObject], es, end, n - 1, u);
      var t := StepPointer(Name(ms[j].name));
      rel := [t] + r;
      assert Get(Object(ms), rel) == Some(u) by {
        GetMember(ms, j, r);
      }
      Assoc(PlacePointer(Begun(q)), [t], r);
    } else {
      rel, u := [], Object(ms);
      MembersFollow(inside, ms);
      NextConcat(q, [EStartObject], es);
      ContainerEnd(q, [EStartObject] + es, EEndObject(|ms|), inside);
      Ends(Object(ms));
      assert Get(Object(ms), []) == Some(Object(ms)) by { GetNothing(Object(ms)); }
    }
  }

  /** Among members: event `n` is the name of member `j` or lies in its value. */
  lemma {:induction false} LocateMember(q: Place, ms: seq<Member>, n: nat)
      returns (j: nat, rel: seq<Token>, u: JSON)
    requires q.Inside? && !q.isArray && q.child.None? && MembersFindable(ms) && n < |MemberEvents(ms)|
    ensures j < |ms| && NUL !in ms[j].name && Get(ms[j].value, rel) == Some(u) && About(MemberEvents(ms), n, u)
    ensures var c := ConcernAt(q, MemberEvents(ms), n);
            c.Some? && PlacePointer(c.value) == PlacePointer(q.outer) + [StepPointer(Name(ms[j].name))] + rel
    decreases ms, 0
  {
    hide NextAll, PlacePointer, Get, About, Events, Findable, ConcernAt;
    var key, es, rest := EKey(ms[0].name), Events(ms[0].value), MemberEvents(ms[1..]);
    var named := q.(child := Option.Some(Name(ms[0].name)));
    assert MemberEvents(ms) == [key] + es + rest;
    NextOne(q, key);
    if n == 0 {
      j, rel, u := 0, [], ms[0].value;
      ConcernFirst(q, [key] + es + rest);
      ChildPointer(named);
      assert PlacePointer(named) + [] == PlacePointer(named);
      KeyAbout(key.name, u, rest);
      GetNothing(u);
    } else if n <= |es| {
      j := 0;
      rel, u := Locate(named, ms[0].value, n - 1);
      ConcernInside(q, [key], es, rest, n - 1);
      AboutInside([key], es, rest, n - 1, u);
      ChildPointer(named);
    } else {
      ValueFollows(named, ms[0].value);
      NextConcat(q, [key], es);
      var k;
      k, rel, u := LocateMember(q, ms[1..], n - 1 - |es|);
      j := k + 1;
      ConcernInside(q, [key] + es, rest, [], n - 1 - |es|);
      AboutInside([key] + es, rest, [], n - 1 - |es|, u);
      assert [key] + es + rest + [] == [key] + es + rest;
    }
  }

  lemma KeyAbout(name: Text, u: JSON, rest: seq<Event>)
    ensures About([EKey(name)] + Events(u) + rest, 0, u)
  {
    hide Events;
    assert ([EKey(name)] + Events(u) + rest)[1..] == Events(u) + rest;
  }

  // ---- The whole value ----

  /** In the event stream of every value: the pointer of the place that an event is about finds the value that begins or
      ends there. */
  lemma PlaceIsFound(v: JSON, n: nat) returns (u: JSON)
    requires Findable(v) && n < |Events(v)|
    ensures var c := Concern(PlaceAt(v, n), Events(v)[n]);
            c.Some? && Get(v, PlacePointer(c.value)) == Some(u) && About(Events(v), n, u)
  {
    hide NextAll, Get, About, Events, Findable, Concern;
    var rel;
    rel, u := Locate(Outside, v, n);
    PrefixFollows(v, n);
    assert [] + rel == rel;
  }

  /** GetInvalidDocumentPointer: the path that a run leaves at its first failure, looked up in the document, finds
      the value at which it failed. */
  lemma InvalidValueIsFound(s: Schema, v: JSON, n: nat) returns (u: JSON)
    requires Findable(v) && n < |Events(v)|
    requires Run(Fresh(s), Events(v)[..n]).valid && !Run(Fresh(s), Events(v)[..n + 1]).valid
    ensures var parsed := Parse(Run(Fresh(s), Events(v)).path);
            parsed.Tokens? && Get(v, parsed.tokens) == Some(u) && About(Events(v), n, u)
  {
    hide Run, Parse, PlaceAt, Concern, Get, About, Events, PlacePointer, PathText;
    u := PlaceIsFound(v, n);
    PathNamesPlace(s, v, n, |Events(v)|);
    assert Events(v)[..|Events(v)|] == Events(v);
    PathIsParsed(Concern(PlaceAt(v, n), Events(v)[n]).value);
  }
}
